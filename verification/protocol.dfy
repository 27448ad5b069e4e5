/**
 The path-level driver: run the protocol over the first minimum-hop path,
 then over one more path that differs from it, preferring another
 minimum-hop path to any other simple path.
 */
module Protocol {
  import opened Results
  import opened Relay
  import opened Network

  /** `[i for i in paths if i != path]`. */
  function Without(paths: seq<Path>, path: Path): (r: seq<Path>)
    ensures |r| <= |paths|
    ensures forall q :: q in r <==> q in paths && q != path
    ensures |r| > 0 ==> r[0] == FirstOther(paths, path)
  {
    if |paths| == 0 then []
    else if paths[0] == path then Without(paths[1..], path)
    else [paths[0]] + Without(paths[1..], path)
  }

  /** The first entry that differs from `path`, or `path` itself when there is none. */
  function FirstOther(paths: seq<Path>, path: Path): Path {
    if |paths| == 0 then path
    else if paths[0] != path then paths[0]
    else FirstOther(paths[1..], path)
  }

  /** The paths the driver runs, in order: `OPT_PATH[0]`, then at most one more. */
  function SelectPaths(sets: PathSets): (runs: seq<Path>)
    requires |sets.optimal| >= 1
    ensures 1 <= |runs| <= 2
    ensures runs[0] == sets.optimal[0]
    ensures |runs| == 2 ==> runs[1] != runs[0] && (runs[1] in sets.optimal || runs[1] in sets.all)
    ensures |runs| == 1 <==> forall p :: p in sets.optimal || p in sets.all ==> p == runs[0]
    ensures (exists q :: q in sets.optimal && q != sets.optimal[0]) ==>
      |runs| == 2 && runs[1] == FirstOther(sets.optimal, sets.optimal[0]) && runs[1] in sets.optimal
    ensures (forall q :: q in sets.optimal ==> q == sets.optimal[0]) && |runs| == 2 ==>
      runs[1] == FirstOther(sets.all, sets.optimal[0]) && runs[1] in sets.all
  {
    var first := sets.optimal[0];
    var opt := Without(sets.optimal, first);
    var rest := Without(sets.all, first);
    if |opt| > 0 then
      assert opt[0] in opt;
      [first, opt[0]]
    else if |rest| > 0 then
      assert rest[0] in rest;
      [first, rest[0]]
    else [first]
  }

  /** One `run_path` call: the path and the role tasks it starts. */
  datatype Run = Run(path: Path, tasks: seq<Task<string>>)

  /** `run_path` over each path in turn; the first error ends the run. */
  function RunAll(g: Graph, paths: seq<Path>): (r: Result<seq<Run>>)
    ensures r.Ok? <==> forall i :: 0 <= i < |paths| ==> RunPath(g, paths[i]).Ok?
    ensures r.Ok? ==> |r.value| == |paths|
    ensures r.Ok? ==> forall i :: 0 <= i < |r.value| ==>
      r.value[i].path == paths[i] && RunPath(g, paths[i]) == Ok(r.value[i].tasks)
    ensures r.Err? ==> exists i :: 0 <= i < |paths| && RunPath(g, paths[i]) == Err(r.error)
  {
    if |paths| == 0 then Ok([])
    else
      var tasks :- RunPath(g, paths[0]);
      var rest :- RunAll(g, paths[1..]);
      assert forall i :: 1 <= i < |paths| ==> paths[1..][i - 1] == paths[i];
      Ok([Run(paths[0], tasks)] + rest)
  }

  /**
   `QKD(graph, msg, key_size)` at the level of paths: the resolver's
   error, or the first `run_path` error, ends the driver. Otherwise it
   runs OPT_PATH[0] and at most one other path.
   */
  function Qkd(g: Graph, simplePaths: (set<(string, string)>, string, string) -> seq<Path>): (r: Result<seq<Run>>)
    ensures GetOptPath(g, simplePaths).Err? ==> r == Err(GetOptPath(g, simplePaths).error)
    ensures r.Ok? <==> (GetOptPath(g, simplePaths).Ok? &&
      forall i :: 0 <= i < |SelectPaths(GetOptPath(g, simplePaths).value)| ==>
        RunPath(g, SelectPaths(GetOptPath(g, simplePaths).value)[i]).Ok?)
    ensures r.Ok? ==> (|r.value| == |SelectPaths(GetOptPath(g, simplePaths).value)| &&
      forall i :: 0 <= i < |r.value| ==> r.value[i].path == SelectPaths(GetOptPath(g, simplePaths).value)[i])
    ensures r.Ok? ==> GetOptPath(g, simplePaths).Ok?
    ensures r.Ok? ==> 1 <= |r.value| <= 2 && r.value[0].path == GetOptPath(g, simplePaths).value.optimal[0]
    ensures r.Ok? && |r.value| == 2 ==> r.value[1].path != r.value[0].path && r.value[1].path in GetOptPath(g, simplePaths).value.all
    ensures r.Ok? ==> forall i :: 0 <= i < |r.value| ==> RunPath(g, r.value[i].path) == Ok(r.value[i].tasks)
  {
    var sets :- GetOptPath(g, simplePaths);
    assert sets.optimal[0] in sets.optimal;
    RunAll(g, SelectPaths(sets))
  }

  /**
   Over the resolver's path sets, the first run uses a minimum-hop path,
   the second never repeats it, and the second is minimum-hop too whenever
   another minimum-hop path exists.
   */
  lemma SelectionPrefersShortest(sets: PathSets)
    requires ShortestSubset(sets)
    ensures var runs := SelectPaths(sets);
      && runs[0] in sets.all
      && (forall p :: p in sets.all ==> |runs[0]| <= |p|)
      && (|runs| == 2 ==> runs[1] != runs[0] && runs[1] in sets.all)
      && (|runs| == 1 <==> forall p :: p in sets.all ==> p == runs[0])
      && (|runs| == 2 && (exists p :: p in sets.all && p != runs[0] && |p| == |runs[0]|) ==>
            forall p :: p in sets.all ==> |runs[1]| <= |p|)
  {
    var runs := SelectPaths(sets);
    assert sets.optimal[0] in sets.optimal;
    if exists p :: p in sets.all && p != runs[0] && |p| == |runs[0]| {
      var p :| p in sets.all && p != runs[0] && |p| == |runs[0]|;
      assert p in sets.optimal;
    }
  }
}
