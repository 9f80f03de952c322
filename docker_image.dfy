/** Node selection for `kind load docker-image`: all nodes of the cluster, or
    exactly the nodes the user named, in the order named. */
module LoadDockerImage {
  import opened Errors
  import opened Nodes

  /** Looks up each requested name in turn; the first name that is not
      indexed is reported as an unknown node. A success has one node per
      request; a failure names a requested name missing from the index. */
  function Resolve(byName: map<string, Node>, requested: seq<string>): (r: Result<seq<Node>>)
    ensures r.Success? ==> |r.value| == |requested|
    ensures r.Failure? ==> r.error.UnknownNode? && r.error.name in requested && r.error.name !in byName
  {
    if requested == [] then Success([])
    else if requested[0] !in byName then Failure(UnknownNode(requested[0]))
    else
      match Resolve(byName, requested[1..])
      case Success(rest) => Success([byName[requested[0]]] + rest)
      case Failure(e) => Failure(e)
  }

  /** The nodes to load into, given the outcome of listing the cluster's
      nodes and the names passed with `--nodes`. */
  function NodeSelection(clusterName: string, listed: Result<seq<Node>>, requested: seq<string>): (r: Result<seq<Node>>)
    ensures listed.Failure? ==> r == Failure(listed.error)
    ensures listed.Success? && listed.value == [] ==> r == Failure(NoNodesFound(clusterName))
    ensures listed.Success? && listed.value != [] && requested == [] ==> r == listed
  {
    match listed
    case Failure(e) => Failure(e)
    case Success(nodeList) =>
      if |nodeList| == 0 then Failure(NoNodesFound(clusterName))
      else if |requested| > 0 then Resolve(NodesByName(nodeList), requested)
      else Success(nodeList)
  }

  /** When every requested name is indexed, the result lists the indexed
      node for each requested name, position by position. */
  lemma {:induction false} ResolveAllKnown(byName: map<string, Node>, requested: seq<string>)
    requires forall k :: 0 <= k < |requested| ==> requested[k] in byName
    ensures Resolve(byName, requested).Success?
    ensures |Resolve(byName, requested).value| == |requested|
    ensures forall k :: 0 <= k < |requested| ==> Resolve(byName, requested).value[k] == byName[requested[k]]
  {
    if requested != [] {
      ResolveAllKnown(byName, requested[1..]);
    }
  }

  /** The first requested name that is not indexed is the one reported. */
  lemma {:induction false} ResolveFirstUnknown(byName: map<string, Node>, requested: seq<string>, i: nat)
    requires i < |requested| && requested[i] !in byName
    requires forall k :: 0 <= k < i ==> requested[k] in byName
    ensures Resolve(byName, requested) == Failure(UnknownNode(requested[i]))
  {
    if i > 0 {
      ResolveFirstUnknown(byName, requested[1..], i - 1);
    }
  }

  /** With requested names that all name listed nodes, the selection has
      one entry per request, repeats included, and entry `k` is the last
      listed node called `requested[k]`. */
  lemma SelectionFollowsRequest(clusterName: string, nodeList: seq<Node>, requested: seq<string>)
    requires nodeList != [] && requested != []
    requires forall k :: 0 <= k < |requested| ==> Listed(nodeList, requested[k])
    ensures NodeSelection(clusterName, Success(nodeList), requested).Success?
    ensures |NodeSelection(clusterName, Success(nodeList), requested).value| == |requested|
    ensures forall k :: 0 <= k < |requested| ==>
      exists j :: IsLastNamed(nodeList, j, requested[k]) &&
        NodeSelection(clusterName, Success(nodeList), requested).value[k] == nodeList[j]
  {
    var byName := NodesByName(nodeList);
    NodesByNameLastWins(nodeList);
    assert forall k :: 0 <= k < |requested| ==> requested[k] in byName;
    ResolveAllKnown(byName, requested);
    forall k | 0 <= k < |requested|
      ensures exists j :: (IsLastNamed(nodeList, j, requested[k]) &&
        NodeSelection(clusterName, Success(nodeList), requested).value[k] == nodeList[j])
    {
      assert requested[k] in byName;
    }
  }

  /** A requested name that no listed node carries fails the selection
      with that name, the first such name in request order. */
  lemma SelectionRejectsUnknown(clusterName: string, nodeList: seq<Node>, requested: seq<string>, i: nat)
    requires nodeList != []
    requires i < |requested| && !Listed(nodeList, requested[i])
    requires forall k :: 0 <= k < i ==> Listed(nodeList, requested[k])
    ensures NodeSelection(clusterName, Success(nodeList), requested) == Failure(UnknownNode(requested[i]))
  {
    NodesByNameLastWins(nodeList);
    ResolveFirstUnknown(NodesByName(nodeList), requested, i);
  }

  /** The selection succeeds exactly when the listing succeeded, found at
      least one node, and every requested name is a listed node's name. */
  lemma SelectionSucceedsIff(clusterName: string, listed: Result<seq<Node>>, requested: seq<string>)
    ensures NodeSelection(clusterName, listed, requested).Success? <==>
      listed.Success? && listed.value != [] &&
      forall k :: 0 <= k < |requested| ==> Listed(listed.value, requested[k])
  {
    if listed.Success? && listed.value != [] && requested != [] {
      var nodeList := listed.value;
      if forall k :: 0 <= k < |requested| ==> Listed(nodeList, requested[k]) {
        SelectionFollowsRequest(clusterName, nodeList, requested);
      } else {
        var i := FirstUnlisted(nodeList, requested);
        SelectionRejectsUnknown(clusterName, nodeList, requested, i);
      }
    }
  }

  /** The position of the first requested name that no listed node carries. */
  function FirstUnlisted(nodeList: seq<Node>, requested: seq<string>): (i: nat)
    requires exists k :: 0 <= k < |requested| && !Listed(nodeList, requested[k])
    ensures i < |requested| && !Listed(nodeList, requested[i])
    ensures forall k :: 0 <= k < i ==> Listed(nodeList, requested[k])
  {
    if !Listed(nodeList, requested[0]) then 0
    else
      var k :| 0 <= k < |requested| && !Listed(nodeList, requested[k]);
      assert requested[1..][k - 1] == requested[k];
      FirstUnlisted(nodeList, requested[1..]) + 1
  }

  /** Example: three nodes with distinct names. Asking for the second gives
      just that node, asking for a fourth name fails with that name, and
      asking for nothing gives all three. */
  lemma SelectionExample(clusterName: string, n1: string, n2: string, n3: string, n4: string)
    requires n1 != n2 && n1 != n3 && n2 != n3
    requires n4 != n1 && n4 != n2 && n4 != n3
    ensures var nodeList := [Node(n1, 1), Node(n2, 2), Node(n3, 3)];
      NodeSelection(clusterName, Success(nodeList), [n2]) == Success([Node(n2, 2)]) &&
      NodeSelection(clusterName, Success(nodeList), [n4]) == Failure(UnknownNode(n4)) &&
      NodeSelection(clusterName, Success(nodeList), []) == Success(nodeList)
  {
    var nodeList := [Node(n1, 1), Node(n2, 2), Node(n3, 3)];
    assert Listed(nodeList, n2) by { assert nodeList[1].name == n2; }
    SelectionFollowsRequest(clusterName, nodeList, [n2]);
    var j :| IsLastNamed(nodeList, j, n2) &&
      NodeSelection(clusterName, Success(nodeList), [n2]).value[0] == nodeList[j];
    assert j == 1;
    assert NodeSelection(clusterName, Success(nodeList), [n2]).value == [Node(n2, 2)];
    SelectionRejectsUnknown(clusterName, nodeList, [n4], 0);
  }

  /** The node-resolution part of `runE`: index the listed nodes by name,
      then keep them all or pick the requested ones. */
  method SelectNodes(clusterName: string, listed: Result<seq<Node>>, requested: seq<string>)
    returns (r: Result<seq<Node>>)
    ensures r == NodeSelection(clusterName, listed, requested)
  {
    if listed.Failure? {
      return Failure(listed.error);
    }
    var nodeList := listed.value;
    if |nodeList| == 0 {
      return Failure(NoNodesFound(clusterName));
    }
    var nodesByName := IndexByName(nodeList);
    var candidateNodes := nodeList;
    if |requested| > 0 {
      candidateNodes := [];
      for i := 0 to |requested|
        invariant |candidateNodes| == i
        invariant forall k :: 0 <= k < i ==> requested[k] in nodesByName
        invariant forall k :: 0 <= k < i ==> candidateNodes[k] == nodesByName[requested[k]]
      {
        var name := requested[i];
        if name !in nodesByName {
          ResolveFirstUnknown(nodesByName, requested, i);
          return Failure(UnknownNode(name));
        }
        candidateNodes := candidateNodes + [nodesByName[name]];
      }
      ResolveAllKnown(nodesByName, requested);
      assert candidateNodes == Resolve(nodesByName, requested).value;
    }
    return Success(candidateNodes);
  }

  /** `runE`: select the nodes, then hand the images and the selection to
      the provider's loader, whose outcome is `loadErr`. A failed selection
      is returned and the loader is never called. */
  method RunE(clusterName: string, images: seq<string>, listed: Result<seq<Node>>,
              requested: seq<string>, loadErr: Option<Error>)
    returns (err: Option<Error>, loadCall: Option<LoadCall>)
    ensures NodeSelection(clusterName, listed, requested).Failure? ==>
      err == Some(NodeSelection(clusterName, listed, requested).error) && loadCall == None
    ensures NodeSelection(clusterName, listed, requested).Success? ==>
      loadCall == Some(LoadCall(images, NodeSelection(clusterName, listed, requested).value)) &&
      err == loadErr
  {
    var candidates := SelectNodes(clusterName, listed, requested);
    if candidates.Failure? {
      return Some(candidates.error), None;
    }
    return loadErr, Some(LoadCall(images, candidates.value));
  }
}
