/** The load-image create action: one load task per configured node that has
    images to load and whose generated name is a live node. */
module LoadImageAction {
  import opened Errors
  import opened Nodes
  import Config
  import Images

  /** A configured node yields a task: it has at least one image to load
      and its generated name is a live node. Deduplication empties only an
      empty list, so this is the same as the configured list being non-empty. */
  predicate Survives(cfgNode: Config.Node, nodeName: string, byName: map<string, Node>): (b: bool)
    ensures b <==> cfgNode.loadImages != [] && nodeName in byName
  {
    Images.FirstOccurrencesSpec(cfgNode.loadImages);
    assert cfgNode.loadImages != [] ==> cfgNode.loadImages[0] in cfgNode.loadImages;
    Images.FirstOccurrences(cfgNode.loadImages) != [] && nodeName in byName
  }

  /** The task for a surviving configured node: the configured images, each
      once, loaded into the one node indexed under the generated name. */
  function TaskFor(cfgNode: Config.Node, nodeName: string, byName: map<string, Node>): (t: LoadCall)
    requires nodeName in byName
    ensures Images.NoDuplicates(t.images)
    ensures forall x :: x in t.images <==> x in cfgNode.loadImages
    ensures t.nodes == [byName[nodeName]]
  {
    Images.FirstOccurrencesSpec(cfgNode.loadImages);
    LoadCall(Images.FirstOccurrences(cfgNode.loadImages), [byName[nodeName]])
  }

  /** The tasks built from the configured nodes, in configuration order;
      `nodeNames[i]` is the name generated for `cfgNodes[i]`. */
  function PlanTasks(cfgNodes: seq<Config.Node>, nodeNames: seq<string>, byName: map<string, Node>): (tasks: seq<LoadCall>)
    requires |cfgNodes| == |nodeNames|
    ensures |tasks| <= |cfgNodes|
  {
    if cfgNodes == [] then []
    else
      var n := |cfgNodes| - 1;
      var earlier := PlanTasks(cfgNodes[..n], nodeNames[..n], byName);
      if Survives(cfgNodes[n], nodeNames[n], byName)
      then earlier + [TaskFor(cfgNodes[n], nodeNames[n], byName)]
      else earlier
  }

  /** The positions of the surviving configured nodes, in order. */
  ghost function Survivors(cfgNodes: seq<Config.Node>, nodeNames: seq<string>, byName: map<string, Node>): seq<nat>
    requires |cfgNodes| == |nodeNames|
  {
    if cfgNodes == [] then []
    else
      var n := |cfgNodes| - 1;
      var earlier := Survivors(cfgNodes[..n], nodeNames[..n], byName);
      if Survives(cfgNodes[n], nodeNames[n], byName) then earlier + [n] else earlier
  }

  /** The survivors are increasing positions of the configuration, and a
      configured node is among them exactly when it has images left after
      deduplication and its generated name is live. */
  lemma {:induction false} SurvivorsSpec(cfgNodes: seq<Config.Node>, nodeNames: seq<string>, byName: map<string, Node>)
    requires |cfgNodes| == |nodeNames|
    ensures var origins := Survivors(cfgNodes, nodeNames, byName);
      (forall k :: 0 <= k < |origins| ==> origins[k] < |cfgNodes|) &&
      (forall k, l :: 0 <= k < l < |origins| ==> origins[k] < origins[l]) &&
      (forall i :: 0 <= i < |cfgNodes| ==>
        (i in origins <==> Survives(cfgNodes[i], nodeNames[i], byName)))
  {
    if cfgNodes != [] {
      var n := |cfgNodes| - 1;
      var init, initNames := cfgNodes[..n], nodeNames[..n];
      SurvivorsSpec(init, initNames, byName);
      var earlier := Survivors(init, initNames, byName);
      assert n !in earlier;
      forall i | 0 <= i < n
        ensures cfgNodes[i] == init[i] && nodeNames[i] == initNames[i]
      {
      }
    }
  }

  /** Task `k` is the task of the `k`-th survivor. Entries skipped before a
      survivor still used up their generated names. */
  lemma {:induction false} PlanTasksFromSurvivors(cfgNodes: seq<Config.Node>, nodeNames: seq<string>, byName: map<string, Node>)
    requires |cfgNodes| == |nodeNames|
    ensures var tasks, origins := PlanTasks(cfgNodes, nodeNames, byName), Survivors(cfgNodes, nodeNames, byName);
      |tasks| == |origins| &&
      forall k :: 0 <= k < |origins| ==>
        origins[k] < |cfgNodes| &&
        Survives(cfgNodes[origins[k]], nodeNames[origins[k]], byName) &&
        tasks[k] == TaskFor(cfgNodes[origins[k]], nodeNames[origins[k]], byName)
  {
    if cfgNodes != [] {
      var n := |cfgNodes| - 1;
      var init, initNames := cfgNodes[..n], nodeNames[..n];
      PlanTasksFromSurvivors(init, initNames, byName);
      var earlier := Survivors(init, initNames, byName);
      forall k | 0 <= k < |earlier|
        ensures cfgNodes[earlier[k]] == init[earlier[k]] && nodeNames[earlier[k]] == initNames[earlier[k]]
      {
      }
    }
  }

  /** Every task loads a non-empty, duplicate-free image list into exactly
      one live node, the one whose name was generated for its entry. */
  lemma TasksWellFormed(cfgNodes: seq<Config.Node>, nodeNames: seq<string>, nodeList: seq<Node>)
    requires |cfgNodes| == |nodeNames|
    ensures var tasks := PlanTasks(cfgNodes, nodeNames, NodesByName(nodeList));
      forall k :: 0 <= k < |tasks| ==>
        tasks[k].images != [] && Images.NoDuplicates(tasks[k].images) &&
        |tasks[k].nodes| == 1 &&
        exists i, j :: 0 <= i < |cfgNodes| && IsLastNamed(nodeList, j, nodeNames[i]) &&
          tasks[k].images == Images.FirstOccurrences(cfgNodes[i].loadImages) &&
          tasks[k].nodes[0] == nodeList[j]
  {
    var byName := NodesByName(nodeList);
    var tasks := PlanTasks(cfgNodes, nodeNames, byName);
    var origins := Survivors(cfgNodes, nodeNames, byName);
    PlanTasksFromSurvivors(cfgNodes, nodeNames, byName);
    SurvivorsSpec(cfgNodes, nodeNames, byName);
    NodesByNameLastWins(nodeList);
    forall k | 0 <= k < |tasks|
      ensures tasks[k].images != [] && Images.NoDuplicates(tasks[k].images) &&
        |tasks[k].nodes| == 1 &&
        exists i, j :: 0 <= i < |cfgNodes| && IsLastNamed(nodeList, j, nodeNames[i]) &&
          tasks[k].images == Images.FirstOccurrences(cfgNodes[i].loadImages) &&
          tasks[k].nodes[0] == nodeList[j]
    {
      var i := origins[k];
      Images.FirstOccurrencesSpec(cfgNodes[i].loadImages);
      assert nodeNames[i] in byName;
      var j :| IsLastNamed(nodeList, j, nodeNames[i]) && byName[nodeNames[i]] == nodeList[j];
    }
  }

  /** `Execute`: list the cluster's nodes, index them by name, build the
      tasks, and run them. The runner is not modelled; `runnerErr` is the
      error it reports. `dispatched` holds the tasks handed to it, or None
      when the action stopped before building any. */
  method Execute(cfg: Config.Cluster, listed: Result<seq<Node>>, nodeNames: seq<string>, runnerErr: Option<Error>)
    returns (err: Option<Error>, dispatched: Option<seq<LoadCall>>)
    requires |nodeNames| == |cfg.nodes|
    ensures listed.Failure? ==> err == Some(listed.error) && dispatched == None
    ensures listed.Success? && listed.value == [] ==>
      err == Some(NoNodesFound(cfg.name)) && dispatched == None
    ensures listed.Success? && listed.value != [] ==>
      dispatched == Some(PlanTasks(cfg.nodes, nodeNames, NodesByName(listed.value))) &&
      err == runnerErr
  {
    if listed.Failure? {
      return Some(listed.error), None;
    }
    var nodeList := listed.value;
    if |nodeList| == 0 {
      return Some(NoNodesFound(cfg.name)), None;
    }
    var nodesByName := IndexByName(nodeList);
    var fns: seq<LoadCall> := [];
    for i := 0 to |cfg.nodes|
      invariant fns == PlanTasks(cfg.nodes[..i], nodeNames[..i], nodesByName)
    {
      var nodeCfg := cfg.nodes[i];
      var nodeName := nodeNames[i];
      assert cfg.nodes[..i + 1][..i] == cfg.nodes[..i];
      assert nodeNames[..i + 1][..i] == nodeNames[..i];
      var imageNames := Images.RemoveDuplicates(nodeCfg.loadImages);
      if |imageNames| == 0 {
        continue;
      }
      if nodeName in nodesByName {
        fns := fns + [LoadCall(imageNames, [nodesByName[nodeName]])];
      }
    }
    assert cfg.nodes[..|cfg.nodes|] == cfg.nodes;
    assert nodeNames[..|nodeNames|] == nodeNames;
    return runnerErr, Some(fns);
  }
}
