/** Live cluster nodes as the provider lists them, and the name index that
    both load paths build over such a list. */
module Nodes {

  /** A running node handle: `node.String()` is taken to be its name, and
      `id` tells apart distinct handles that report the same name. */
  datatype Node = Node(name: string, id: nat)

  /** The arguments of one `provider.LoadImage` call: the images to load and
      the nodes to load them into. */
  datatype LoadCall = LoadCall(images: seq<string>, nodes: seq<Node>)

  /** Some node of the list is called `name`. */
  predicate Listed(nodeList: seq<Node>, name: string)
  {
    exists j :: 0 <= j < |nodeList| && nodeList[j].name == name
  }

  /** The name index built by inserting the listed nodes one by one, so a
      later node overwrites an earlier node of the same name. Its keys are
      exactly the listed names. */
  function NodesByName(nodeList: seq<Node>): (byName: map<string, Node>)
    ensures forall name :: name in byName <==> Listed(nodeList, name)
  {
    if nodeList == [] then map[]
    else
      var n := |nodeList| - 1;
      var init, last := nodeList[..n], nodeList[n];
      var earlier := NodesByName(init);
      assert forall name :: Listed(nodeList, name) <==> Listed(init, name) || name == last.name by {
        forall name | Listed(init, name) ensures Listed(nodeList, name) {
          var j :| 0 <= j < |init| && init[j].name == name;
          assert nodeList[j] == init[j];
        }
        forall name | Listed(nodeList, name) && name != last.name ensures Listed(init, name) {
          var j :| 0 <= j < |nodeList| && nodeList[j].name == name;
          assert init[j] == nodeList[j];
        }
        assert nodeList[n] == last;
      }
      earlier[last.name := last]
  }

  /** `nodeList[j]` is named `name` and no later node has that name. */
  predicate IsLastNamed(nodeList: seq<Node>, j: int, name: string)
  {
    0 <= j < |nodeList| && nodeList[j].name == name &&
    forall k :: j < k < |nodeList| ==> nodeList[k].name != name
  }

  /** A last occurrence in a prefix stays last when the appended node has
      another name. */
  lemma LastNamedExtends(nodeList: seq<Node>, j: int, name: string)
    requires nodeList != []
    requires IsLastNamed(nodeList[..|nodeList| - 1], j, name)
    requires nodeList[|nodeList| - 1].name != name
    ensures IsLastNamed(nodeList, j, name)
  {
    var init := nodeList[..|nodeList| - 1];
    assert forall k :: j < k < |init| ==> nodeList[k] == init[k];
  }

  /** Each indexed name resolves to the last listed node that carries it. */
  lemma {:induction false} NodesByNameLastWins(nodeList: seq<Node>)
    ensures forall name :: name in NodesByName(nodeList) ==>
      exists j :: IsLastNamed(nodeList, j, name) && NodesByName(nodeList)[name] == nodeList[j]
  {
    if nodeList != [] {
      var n := |nodeList| - 1;
      var init := nodeList[..n];
      NodesByNameLastWins(init);
      var byName, earlier := NodesByName(nodeList), NodesByName(init);
      assert byName == earlier[nodeList[n].name := nodeList[n]];
      forall name | name in byName
        ensures exists j :: IsLastNamed(nodeList, j, name) && byName[name] == nodeList[j]
      {
        if name == nodeList[n].name {
          assert IsLastNamed(nodeList, n, name);
        } else {
          assert name in earlier && byName[name] == earlier[name];
          var j :| IsLastNamed(init, j, name) && earlier[name] == init[j];
          LastNamedExtends(nodeList, j, name);
          assert nodeList[j] == init[j];
        }
      }
    }
  }

  /** Example: of two handles with the same name, the later one is kept. */
  lemma DuplicateNameExample(name: string)
    ensures NodesByName([Node(name, 1), Node(name, 2)])[name] == Node(name, 2)
  {
  }

  /** The loop that fills `nodesByName` from the listed nodes. */
  method IndexByName(nodeList: seq<Node>) returns (nodesByName: map<string, Node>)
    ensures nodesByName == NodesByName(nodeList)
  {
    nodesByName := map[];
    for i := 0 to |nodeList|
      invariant nodesByName == NodesByName(nodeList[..i])
    {
      var node := nodeList[i];
      assert nodeList[..i + 1][..i] == nodeList[..i];
      nodesByName := nodesByName[node.name := node];
    }
    assert nodeList[..|nodeList|] == nodeList;
  }
}
