/**
 Topology resolution over a role-annotated graph: the undirected edge set
 built from the adjacency lists, the role lists, the minimum-hop subset of
 the enumerated sender-to-receiver paths, and the dispatch of one role task
 per non-spy node of a chosen path.
 */
module Network {
  import opened Results
  import opened Relay

  /**
   One entry of the graph dictionary: its key, the role `graph[n][0][0]`,
   the plot coordinates `graph[n][1]` and the neighbour list `graph[n][2]`.
   */
  datatype NodeDecl = NodeDecl(name: string, role: string, position: seq<real>, adjacent: seq<string>)

  /** The graph dictionary in insertion order. */
  type Graph = seq<NodeDecl>

  type Path = seq<string>

  const SenderRole: string := "sender"
  const ReceiverRole: string := "receiver"
  const TrusterRole: string := "truster"
  const SpierRole: string := "spier"

  /** Dictionary keys are distinct. */
  predicate UniqueNames(g: Graph) {
    forall i, j :: 0 <= i < j < |g| ==> g[i].name != g[j].name
  }

  predicate Declares(g: Graph, n: string, role: string) {
    exists k :: 0 <= k < |g| && g[k].name == n && g[k].role == role
  }

  /** n is the key of the first declaration that carries the role. */
  predicate FirstDeclared(g: Graph, role: string, n: string) {
    exists k :: 0 <= k < |g| && g[k].name == n && g[k].role == role && forall k' :: 0 <= k' < k ==> g[k'].role != role
  }

  /** a is b with some entries dropped and the others kept in order. */
  predicate Subsequence<T(==)>(a: seq<T>, b: seq<T>)
    decreases |b|
  {
    if |a| == 0 then true
    else if |b| == 0 then false
    else if a[0] == b[0] then Subsequence(a[1..], b[1..])
    else Subsequence(a, b[1..])
  }

  /** The names carrying a role, in dictionary order (`sender_list`, `receiver_list`, ...). */
  function RoleList(g: Graph, role: string): (names: seq<string>)
    ensures |names| <= |g|
    ensures forall n :: n in names <==> Declares(g, n, role)
    ensures |names| > 0 ==> FirstDeclared(g, role, names[0])
  {
    if |g| == 0 then []
    else
      var n := |g| - 1;
      var prefix := RoleList(g[..n], role);
      assert forall m :: Declares(g, m, role) <==> Declares(g[..n], m, role) || (g[n].name == m && g[n].role == role) by {
        forall m | Declares(g, m, role)
          ensures Declares(g[..n], m, role) || (g[n].name == m && g[n].role == role)
        {
          var k :| 0 <= k < |g| && g[k].name == m && g[k].role == role;
          if k < n {
            assert g[..n][k] == g[k];
          }
        }
      }
      var names := prefix + (if g[n].role == role then [g[n].name] else []);
      assert |names| > 0 ==> FirstDeclared(g, role, names[0]) by {
        if |prefix| > 0 {
          var k :| 0 <= k < n && g[..n][k].name == prefix[0] && g[..n][k].role == role && forall k' :: 0 <= k' < k ==> g[..n][k'].role != role;
          assert g[k] == g[..n][k];
          assert forall k' :: 0 <= k' < k ==> g[k'] == g[..n][k'];
        } else if g[n].role == role {
          forall k' | 0 <= k' < n
            ensures g[k'].role != role
          {
            if g[k'].role == role {
              assert g[..n][k'] == g[k'];
              assert Declares(g[..n], g[k'].name, role);
            }
          }
        }
      }
      names
  }

  /** With distinct keys, a declared role is the one the dictionary lookup returns. */
  lemma RoleOfDeclared(g: Graph, n: string, role: string)
    requires UniqueNames(g) && Declares(g, n, role)
    ensures RoleOf(g, n) == Ok(role)
  {
    var k :| 0 <= k < |g| && g[k].name == n && g[k].role == role;
    var r := RoleOf(g, n);
    var k' :| 0 <= k' < |g| && g[k'].name == n && g[k'].role == r.value;
    assert k == k';
  }

  /** Node a lists b among its neighbours (`graph[a][2]`). */
  predicate Lists(g: Graph, a: string, b: string) {
    exists k :: 0 <= k < |g| && g[k].name == a && b in g[k].adjacent
  }

  lemma ListsCons(g: Graph, a: string, b: string)
    requires |g| > 0
    ensures Lists(g, a, b) <==> (g[0].name == a && b in g[0].adjacent) || Lists(g[1..], a, b)
  {
    if Lists(g, a, b) {
      var k :| 0 <= k < |g| && g[k].name == a && b in g[k].adjacent;
      if k > 0 {
        assert g[1..][k - 1] == g[k];
      }
    }
    if Lists(g[1..], a, b) {
      var k :| 0 <= k < |g| - 1 && g[1..][k].name == a && b in g[1..][k].adjacent;
      assert g[k + 1] == g[1..][k];
    }
  }

  /** The pairs `(n, v)` one declaration contributes. */
  function OwnEdges(name: string, adjacent: seq<string>): (edges: seq<(string, string)>)
    ensures |edges| == |adjacent|
    ensures forall a, b :: (a, b) in edges <==> a == name && b in adjacent
  {
    if |adjacent| == 0 then []
    else [(name, adjacent[0])] + OwnEdges(name, adjacent[1..])
  }

  /** `edges.append((n, v))` for every declared neighbour, in dictionary order. */
  function EdgeList(g: Graph): (edges: seq<(string, string)>)
    ensures forall a, b :: (a, b) in edges <==> Lists(g, a, b)
  {
    if |g| == 0 then []
    else
      var rest := EdgeList(g[1..]);
      assert forall a, b :: Lists(g, a, b) <==> (g[0].name == a && b in g[0].adjacent) || Lists(g[1..], a, b) by {
        forall a, b {
          ListsCons(g, a, b);
        }
      }
      OwnEdges(g[0].name, g[0].adjacent) + rest
  }

  /** `nx.Graph` edges: a declared pair in either direction. */
  function Edges(g: Graph): set<(string, string)> {
    (set e | e in EdgeList(g)) + (set e | e in EdgeList(g) :: (e.1, e.0))
  }

  /** Two nodes are joined when either lists the other. */
  predicate Adjacent(g: Graph, a: string, b: string) {
    Lists(g, a, b) || Lists(g, b, a)
  }

  /** The edge set is undirected: {a, b} is an edge exactly when a lists b or b lists a. */
  lemma EdgesUndirected(g: Graph, a: string, b: string)
    ensures (a, b) in Edges(g) <==> Adjacent(g, a, b)
    ensures (a, b) in Edges(g) <==> (b, a) in Edges(g)
  {
    var el := EdgeList(g);
    if Lists(g, a, b) {
      assert (a, b) in el;
      assert (b, a) == ((a, b).1, (a, b).0);
    }
    if Lists(g, b, a) {
      assert (b, a) in el;
      assert (a, b) == ((b, a).1, (b, a).0);
    }
    if (a, b) in Edges(g) && (a, b) !in el {
      var e :| e in el && (a, b) == (e.1, e.0);
      assert (b, a) in el;
    }
    if (b, a) in Edges(g) && (b, a) !in el {
      var e :| e in el && (b, a) == (e.1, e.0);
      assert (a, b) in el;
    }
  }

  /** A simple path of the undirected graph from s to t: distinct nodes, consecutive ones adjacent. */
  predicate IsSimplePath(g: Graph, p: Path, s: string, t: string) {
    && |p| >= 1
    && p[0] == s
    && p[|p| - 1] == t
    && (forall i, j :: 0 <= i < j < |p| ==> p[i] != p[j])
    && (forall i :: 0 <= i < |p| - 1 ==> Adjacent(g, p[i], p[i + 1]))
  }

  /** Every declaration carries a longitude and a latitude. */
  predicate Placed(g: Graph) {
    forall k :: 0 <= k < |g| ==> |g[k].position| >= 2
  }

  /** n is a key of the dictionary, so `pos` has its coordinates. */
  predicate IsKey(g: Graph, n: string) {
    exists k :: 0 <= k < |g| && g[k].name == n
  }

  /** Some listed neighbour is not a key: it becomes a node of `G` without a position. */
  predicate Unplaced(g: Graph) {
    exists k, j :: 0 <= k < |g| && 0 <= j < |g[k].adjacent| && !IsKey(g, g[k].adjacent[j])
  }

  /** The roles the plot colours, each of whose nodes is drawn with `draw_networkx`. */
  predicate PlottedRole(role: string) {
    role == SenderRole || role == TrusterRole || role == SpierRole || role == ReceiverRole
  }

  /** At least one node is drawn, so the whole graph's edges and labels are drawn too. */
  predicate Drawn(g: Graph) {
    exists k :: 0 <= k < |g| && PlottedRole(g[k].role)
  }

  /** `min([len(p) for p in PATH])`. */
  function MinLength(paths: seq<Path>): (m: nat)
    requires |paths| >= 1
    ensures forall k :: 0 <= k < |paths| ==> m <= |paths[k]|
    ensures exists k :: 0 <= k < |paths| && |paths[k]| == m
  {
    if |paths| == 1 then |paths[0]|
    else
      var rest := MinLength(paths[1..]);
      assert forall k :: 1 <= k < |paths| ==> paths[1..][k - 1] == paths[k];
      if |paths[0]| <= rest then |paths[0]| else rest
  }

  /** p is the first of the paths whose length is m. */
  predicate FirstOfLength(paths: seq<Path>, m: nat, p: Path) {
    exists k :: 0 <= k < |paths| && paths[k] == p && |p| == m && forall k' :: 0 <= k' < k ==> |paths[k']| != m
  }

  /** `[p for p in PATH if len(p) == m]`. */
  function OfLength(paths: seq<Path>, m: nat): (kept: seq<Path>)
    ensures |kept| <= |paths|
    ensures forall p :: p in kept <==> p in paths && |p| == m
    ensures Subsequence(kept, paths)
    ensures |kept| > 0 ==> FirstOfLength(paths, m, kept[0])
  {
    if |paths| == 0 then []
    else
      var rest := OfLength(paths[1..], m);
      assert forall i :: 1 <= i < |paths| ==> paths[1..][i - 1] == paths[i];
      if |paths[0]| == m then
        assert ([paths[0]] + rest)[1..] == rest;
        assert FirstOfLength(paths, m, paths[0]) by {
          assert paths[0] == paths[0];
        }
        [paths[0]] + rest
      else
        assert |rest| > 0 ==> rest[0] in rest && rest[0] != paths[0];
        assert |rest| > 0 ==> FirstOfLength(paths, m, rest[0]) by {
          if |rest| > 0 {
            var k :| 0 <= k < |paths[1..]| && paths[1..][k] == rest[0] && |rest[0]| == m && forall k' :: 0 <= k' < k ==> |paths[1..][k']| != m;
            assert paths[k + 1] == rest[0];
          }
        }
        rest
  }

  lemma ConcatAssoc<T>(x: seq<T>, y: seq<T>, z: seq<T>)
    ensures x + (y + z) == (x + y) + z
  {
  }

  lemma OfLengthCons(p: Path, rest: seq<Path>, m: nat)
    ensures OfLength([p] + rest, m) == (if |p| == m then [p] else []) + OfLength(rest, m)
  {
    assert ([p] + rest)[0] == p && ([p] + rest)[1..] == rest;
  }

  /** One more path in front of a concatenation whose filter already splits. */
  lemma OfLengthAppendStep(p: Path, t: seq<Path>, b: seq<Path>, m: nat)
    requires OfLength(t + b, m) == OfLength(t, m) + OfLength(b, m)
    ensures OfLength([p] + t + b, m) == OfLength([p] + t, m) + OfLength(b, m)
  {
    var head: seq<Path> := if |p| == m then [p] else [];
    assert [p] + t + b == [p] + (t + b);
    OfLengthCons(p, t + b, m);
    OfLengthCons(p, t, m);
    ConcatAssoc(head, OfLength(t, m), OfLength(b, m));
  }

  /** The filter keeps the enumeration order: filtering a concatenation filters each part. */
  lemma {:induction false} OfLengthAppend(a: seq<Path>, b: seq<Path>, m: nat)
    ensures OfLength(a + b, m) == OfLength(a, m) + OfLength(b, m)
  {
    if |a| > 0 {
      OfLengthAppend(a[1..], b, m);
      OfLengthAppendStep(a[0], a[1..], b, m);
      assert [a[0]] + a[1..] == a;
    } else {
      assert a + b == b;
    }
  }

  /** p is the first enumerated path that no enumerated path is shorter than. */
  predicate FirstShortest(paths: seq<Path>, p: Path) {
    exists k :: 0 <= k < |paths| && paths[k] == p && (forall q :: q in paths ==> |p| <= |q|) && forall k' :: 0 <= k' < k ==> |paths[k']| > |p|
  }

  /** The first path of minimum length is the first shortest path. */
  lemma FirstOfMinLength(paths: seq<Path>, p: Path)
    requires |paths| >= 1 && FirstOfLength(paths, MinLength(paths), p)
    ensures FirstShortest(paths, p)
  {
    var m := MinLength(paths);
    var j :| 0 <= j < |paths| && paths[j] == p && |p| == m && forall k' :: 0 <= k' < j ==> |paths[k']| != m;
    FirstAtLowerBound(paths, m, j);
  }

  lemma FirstAtLowerBound(paths: seq<Path>, m: nat, j: nat)
    requires j < |paths| && |paths[j]| == m
    requires forall k :: 0 <= k < |paths| ==> m <= |paths[k]|
    requires forall k' :: 0 <= k' < j ==> |paths[k']| != m
    ensures FirstShortest(paths, paths[j])
  {
    forall q | q in paths
      ensures m <= |q|
    {
      var i :| 0 <= i < |paths| && paths[i] == q;
    }
  }

  /** With every listed neighbour a key, both ends of every edge have a position. */
  lemma EdgesArePlaced(g: Graph)
    requires !Unplaced(g)
    ensures forall a, b :: (a, b) in Edges(g) ==> IsKey(g, a) && IsKey(g, b)
  {
    forall a, b | (a, b) in Edges(g)
      ensures IsKey(g, a) && IsKey(g, b)
    {
      if (a, b) in EdgeList(g) {
        assert Lists(g, a, b);
        var k, j :| 0 <= k < |g| && 0 <= j < |g[k].adjacent| && g[k].name == a && g[k].adjacent[j] == b;
      } else {
        assert (b, a) in EdgeList(g);
        assert Lists(g, b, a);
        var k, j :| 0 <= k < |g| && 0 <= j < |g[k].adjacent| && g[k].name == b && g[k].adjacent[j] == a;
      }
    }
  }

  /** `PATH` and `OPT_PATH`. */
  datatype PathSets = PathSets(all: seq<Path>, optimal: seq<Path>)

  /** The optimal paths are exactly the enumerated paths of minimum length, and there is one. */
  predicate ShortestSubset(sets: PathSets) {
    && |sets.optimal| >= 1
    && (forall q :: q in sets.optimal ==> q in sets.all && forall p :: p in sets.all ==> |q| <= |p|)
    && (forall p :: p in sets.all && (forall p' :: p' in sets.all ==> |p| <= |p'|) ==> p in sets.optimal)
  }

  /**
   `get_opt_path`: paths run from the first declared sender to the first
   declared receiver; `simplePaths` stands for `nx.all_simple_paths` over
   the graph's edge set and fixes its enumeration order. A declaration
   without two coordinates raises IndexError; drawing a graph with a
   neighbour that is not a key raises KeyError, since `pos` has no entry
   for it; an empty role list raises IndexError; an empty path list makes
   `min` raise ValueError.
   */
  function GetOptPath(g: Graph, simplePaths: (set<(string, string)>, string, string) -> seq<Path>): (r: Result<PathSets>)
    ensures r.Ok? <==>
      Placed(g) && !Unplaced(g) && |RoleList(g, SenderRole)| > 0 && |RoleList(g, ReceiverRole)| > 0 &&
      |simplePaths(Edges(g), RoleList(g, SenderRole)[0], RoleList(g, ReceiverRole)[0])| > 0
    ensures r.Err? ==> (r.error ==
      if !Placed(g) then IndexError
      else if Drawn(g) && Unplaced(g) then KeyError
      else if |RoleList(g, SenderRole)| == 0 || |RoleList(g, ReceiverRole)| == 0 then IndexError
      else ValueError)
    ensures r.Ok? ==> forall a, b :: (a, b) in Edges(g) ==> IsKey(g, a) && IsKey(g, b)
    ensures r.Ok? ==> r.value.all == simplePaths(Edges(g), RoleList(g, SenderRole)[0], RoleList(g, ReceiverRole)[0])
    ensures r.Ok? ==> ShortestSubset(r.value)
    ensures r.Ok? ==> Subsequence(r.value.optimal, r.value.all)
    ensures r.Ok? ==> FirstShortest(r.value.all, r.value.optimal[0])
  {
    var senders := RoleList(g, SenderRole);
    var receivers := RoleList(g, ReceiverRole);
    if !Placed(g) then Err(IndexError)
    else if Drawn(g) && Unplaced(g) then Err(KeyError)
    else if |senders| == 0 || |receivers| == 0 then Err(IndexError)
    else
      assert Drawn(g) by {
        assert senders[0] in senders;
      }
      EdgesArePlaced(g);
      var paths := simplePaths(Edges(g), senders[0], receivers[0]);
      if |paths| == 0 then Err(ValueError)
      else
        var m := MinLength(paths);
        var opt := OfLength(paths, m);
        var k :| 0 <= k < |paths| && |paths[k]| == m;
        assert paths[k] in opt;
        FirstOfMinLength(paths, opt[0]);
        Ok(PathSets(paths, opt))
  }

  /**
   When the enumeration yields simple paths from s to t, every optimal
   path is a shortest simple path from s to t among those enumerated.
   */
  lemma OptimalPathsAreShortestSimple(g: Graph, sets: PathSets, s: string, t: string)
    requires ShortestSubset(sets)
    requires forall p :: p in sets.all ==> IsSimplePath(g, p, s, t)
    ensures forall q :: q in sets.optimal ==> IsSimplePath(g, q, s, t) && forall p :: p in sets.all ==> |q| <= |p|
  {
  }

  /** `graph[n][0][0]`: KeyError for a node that is not a dictionary key. */
  function RoleOf(g: Graph, n: string): (r: Result<string>)
    ensures r.Ok? <==> exists k :: 0 <= k < |g| && g[k].name == n
    ensures r.Err? ==> r.error == KeyError
    ensures r.Ok? ==> Declares(g, n, r.value)
  {
    if |g| == 0 then Err(KeyError)
    else if g[0].name == n then Ok(g[0].role)
    else
      var r := RoleOf(g[1..], n);
      assert forall k :: 1 <= k < |g| ==> g[1..][k - 1] == g[k];
      if r.Ok? then
        var k :| 0 <= k < |g| - 1 && g[1..][k].name == n && g[1..][k].role == r.value;
        assert g[k + 1].name == n && g[k + 1].role == r.value;
        r
      else r
  }

  /** `[n for n in path if graph[n][0][0] != 'spier']`. */
  function PathNoSpiers(g: Graph, path: Path): (r: Result<Path>)
    ensures r.Ok? <==> forall i :: 0 <= i < |path| ==> RoleOf(g, path[i]).Ok?
    ensures r.Err? ==> r.error == KeyError
    ensures r.Ok? ==> |r.value| <= |path|
    ensures r.Ok? ==> forall n :: n in r.value <==> n in path && RoleOf(g, n).value != SpierRole
    ensures r.Ok? ==> Subsequence(r.value, path)
  {
    if |path| == 0 then Ok([])
    else
      var role :- RoleOf(g, path[0]);
      var rest :- PathNoSpiers(g, path[1..]);
      assert forall i :: 1 <= i < |path| ==> path[1..][i - 1] == path[i];
      assert forall n :: n in path <==> n == path[0] || n in path[1..];
      if role == SpierRole then
        assert |rest| > 0 ==> rest[0] in rest && rest[0] != path[0];
        Ok(rest)
      else
        assert ([path[0]] + rest)[1..] == rest;
        Ok([path[0]] + rest)
  }

  /** The filter keeps path order: filtering a concatenation filters each part. */
  lemma {:induction false} PathNoSpiersAppend(g: Graph, a: Path, b: Path)
    ensures PathNoSpiers(g, a + b).Ok? <==> PathNoSpiers(g, a).Ok? && PathNoSpiers(g, b).Ok?
    ensures PathNoSpiers(g, a + b).Ok? ==> PathNoSpiers(g, a + b).value == PathNoSpiers(g, a).value + PathNoSpiers(g, b).value
  {
    if |a| > 0 {
      assert (a + b)[0] == a[0] && (a + b)[1..] == a[1..] + b;
      PathNoSpiersAppend(g, a[1..], b);
      if PathNoSpiers(g, a + b).Ok? {
        var rest := PathNoSpiers(g, a[1..]).value;
        if RoleOf(g, a[0]).value != SpierRole {
          assert [a[0]] + (rest + PathNoSpiers(g, b).value) == ([a[0]] + rest) + PathNoSpiers(g, b).value;
        }
      }
    } else {
      assert a + b == b;
    }
  }

  /** The task `run_path` starts for node i of the spy-free path. */
  function TaskFor(g: Graph, pns: Path, i: nat): (r: Result<Task<string>>)
    requires i < |pns|
    ensures r.Ok? ==> r.value.node == pns[i]
    ensures r.Ok? ==> RoleOf(g, pns[i]).Ok? && RoleOf(g, pns[i]).value in {SenderRole, ReceiverRole, TrusterRole}
    ensures r.Err? ==> r.error in {KeyError, IndexError, ValueError}
    ensures RoleOf(g, pns[i]).Err? ==> r == Err(KeyError)
    ensures RoleOf(g, pns[i]).Ok? && RoleOf(g, pns[i]).value !in {SenderRole, ReceiverRole, TrusterRole} ==> r == Err(ValueError)
    ensures RoleOf(g, pns[i]) in {Ok(SenderRole), Ok(TrusterRole)} && i == |pns| - 1 ==> r == Err(IndexError)
    ensures RoleOf(g, pns[i]) == Ok(SenderRole) && i + 1 < |pns| ==> r == Ok(SenderTask(pns[i], pns[i + 1]))
    ensures RoleOf(g, pns[i]) == Ok(TrusterRole) && i + 1 < |pns| ==>
      r == Ok(TrustedTask(pns[i], if i == 0 then pns[|pns| - 1] else pns[i - 1], pns[i + 1]))
    ensures RoleOf(g, pns[i]) == Ok(ReceiverRole) ==>
      r == Ok(ReceiverTask(pns[i], if i == 0 then pns[|pns| - 1] else pns[i - 1]))
  {
    // `pns[i - 1]` never raises: at i == 0 it reads the last node.
    var n := pns[i];
    var role :- RoleOf(g, n);
    if role == SenderRole then
      var next :- PyIndex(pns, i + 1);
      Ok(SenderTask(n, next))
    else if role == ReceiverRole then
      var prev := PyIndex(pns, i - 1).value;
      Ok(ReceiverTask(n, prev))
    else if role == TrusterRole then
      var prev := PyIndex(pns, i - 1).value;
      var next :- PyIndex(pns, i + 1);
      Ok(TrustedTask(n, prev, next))
    else Err(ValueError)
  }

  /** Node k is the first node from i on whose dispatch fails, and it fails with e. */
  predicate FailsFirstAt(g: Graph, pns: Path, i: nat, k: nat, e: Error) {
    && i <= k < |pns|
    && TaskFor(g, pns, k) == Err(e)
    && forall k' :: i <= k' < k ==> TaskFor(g, pns, k').Ok?
  }

  /** The tasks for nodes i, i+1, ... of the spy-free path; the first failure ends the loop. */
  function TasksFrom(g: Graph, pns: Path, i: nat): (r: Result<seq<Task<string>>>)
    requires i <= |pns|
    ensures r.Ok? ==> |r.value| == |pns| - i
    ensures r.Ok? <==> forall k :: i <= k < |pns| ==> TaskFor(g, pns, k).Ok?
    ensures r.Ok? ==> forall k :: i <= k < |pns| ==> TaskFor(g, pns, k) == Ok(r.value[k - i])
    ensures r.Err? ==> r.error in {KeyError, IndexError, ValueError}
    ensures r.Err? ==> exists k :: FailsFirstAt(g, pns, i, k, r.error)
    decreases |pns| - i
  {
    if i == |pns| then Ok([])
    else
      var t := TaskFor(g, pns, i);
      if t.Err? then
        assert FailsFirstAt(g, pns, i, i, t.error);
        Err(t.error)
      else
        var rest := TasksFrom(g, pns, i + 1);
        if rest.Err? then
          var k :| FailsFirstAt(g, pns, i + 1, k, rest.error);
          assert FailsFirstAt(g, pns, i, k, rest.error);
          Err(rest.error)
        else Ok([t.value] + rest.value)
  }

  /** `run_path`: drop the spies, then start one role task per remaining node. */
  function RunPath(g: Graph, path: Path): (r: Result<seq<Task<string>>>)
    ensures r.Ok? <==> (PathNoSpiers(g, path).Ok? &&
      forall i :: 0 <= i < |PathNoSpiers(g, path).value| ==> TaskFor(g, PathNoSpiers(g, path).value, i).Ok?)
    ensures PathNoSpiers(g, path).Err? ==> r == Err(KeyError)
    ensures r.Ok? ==> |r.value| == |PathNoSpiers(g, path).value|
    ensures r.Ok? ==> forall i :: 0 <= i < |r.value| ==> TaskFor(g, PathNoSpiers(g, path).value, i) == Ok(r.value[i])
    ensures r.Err? && PathNoSpiers(g, path).Ok? ==> exists k :: FailsFirstAt(g, PathNoSpiers(g, path).value, 0, k, r.error)
    ensures r.Ok? ==> forall i :: 0 <= i < |r.value| ==> r.value[i].node == PathNoSpiers(g, path).value[i] && RoleOf(g, r.value[i].node).value != SpierRole
    ensures r.Err? ==> r.error in {KeyError, IndexError, ValueError}
  {
    var pns :- PathNoSpiers(g, path);
    var r := TasksFrom(g, pns, 0);
    assert r.Ok? ==> forall i :: 0 <= i < |r.value| ==> r.value[i].node == pns[i] && pns[i] in pns by {
      if r.Ok? {
        forall i | 0 <= i < |r.value|
          ensures r.value[i].node == pns[i]
        {
          assert TaskFor(g, pns, i) == Ok(r.value[i - 0]);
        }
      }
    }
    r
  }

  /** The spy-free path starts at a sender, ends at a receiver and relays through trusters only. */
  predicate RolesAlongChain(g: Graph, pns: Path) {
    && |pns| >= 2
    && (forall i :: 0 <= i < |pns| ==> RoleOf(g, pns[i]).Ok?)
    && RoleOf(g, pns[0]).value == SenderRole
    && RoleOf(g, pns[|pns| - 1]).value == ReceiverRole
    && (forall i :: 0 < i < |pns| - 1 ==> RoleOf(g, pns[i]).value == TrusterRole)
  }

  /** The dispatch of one node of such a path. */
  lemma TaskForChain(g: Graph, pns: Path, i: nat)
    requires RolesAlongChain(g, pns) && i < |pns|
    ensures TaskFor(g, pns, i) == Ok(TaskAt(pns, i))
  {
    if i == 0 {
      assert RoleOf(g, pns[0]).value == SenderRole;
    } else if i == |pns| - 1 {
      assert RoleOf(g, pns[i]).value == ReceiverRole;
    } else {
      assert RoleOf(g, pns[i]).value == TrusterRole;
    }
  }

  /**
   On such a path the dispatch pairs the sender with its successor, the
   receiver with its predecessor and every trusted node with both, exactly
   as the node-order split of the stand-alone drivers does.
   */
  lemma DispatchAlongChain(g: Graph, pns: Path)
    requires RolesAlongChain(g, pns)
    ensures TasksFrom(g, pns, 0).Ok?
    ensures ChainShaped(pns, TasksFrom(g, pns, 0).value)
    ensures TasksFrom(g, pns, 0) == ChainTasks(pns)
  {
    var n := |pns|;
    forall i | 0 <= i < n
      ensures TaskFor(g, pns, i).Ok?
    {
      TaskForChain(g, pns, i);
    }
    var ts := TasksFrom(g, pns, 0).value;
    forall i | 0 <= i < n
      ensures ts[i] == TaskAt(pns, i)
    {
      TaskForChain(g, pns, i);
    }
    assert ts == ChainTasks(pns).value;
  }

  /**
   `run_path` on a path whose spy-free part is a sender-truster-receiver
   chain starts exactly the chain's role split.
   */
  lemma RunPathChain(g: Graph, path: Path)
    requires PathNoSpiers(g, path).Ok? && RolesAlongChain(g, PathNoSpiers(g, path).value)
    ensures RunPath(g, path) == ChainTasks(PathNoSpiers(g, path).value)
    ensures ChainShaped(PathNoSpiers(g, path).value, RunPath(g, path).value)
  {
    DispatchAlongChain(g, PathNoSpiers(g, path).value);
  }
}
