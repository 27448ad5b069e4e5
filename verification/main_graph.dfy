/**
 The five-campus graph of the BB84 driver script: one sender, two trusted
 nodes, one spy and one receiver.
 */
module MainGraph {
  import opened Results
  import opened Relay
  import opened Network

  const Graph5: Graph := [
    NodeDecl("Ani", SenderRole, [103.68293320728537, 1.3484104000000001], ["Arya"]),
    NodeDecl("Arya", TrusterRole, [103.7800945, 1.2970694], ["Ani", "Darren", "Nayan"]),
    NodeDecl("Darren", SpierRole, [103.8266290740217, 1.262059000000001], ["Xiufan"]),
    NodeDecl("Nayan", TrusterRole, [103.92004365998248, 1.29616795], ["Arya", "Xiufan"]),
    NodeDecl("Xiufan", ReceiverRole, [103.96434326603818, 1.341603], ["Nayan"])
  ]

  /** The sender list of the first k declarations, then the receiver list. */
  lemma Graph5Prefixes()
    ensures RoleList(Graph5[..1], SenderRole) == ["Ani"] && RoleList(Graph5[..1], ReceiverRole) == []
    ensures RoleList(Graph5[..2], SenderRole) == ["Ani"] && RoleList(Graph5[..2], ReceiverRole) == []
    ensures RoleList(Graph5[..3], SenderRole) == ["Ani"] && RoleList(Graph5[..3], ReceiverRole) == []
    ensures RoleList(Graph5[..4], SenderRole) == ["Ani"] && RoleList(Graph5[..4], ReceiverRole) == []
  {
    assert Graph5[..1][..0] == [];
    assert Graph5[..2][..1] == Graph5[..1];
    assert Graph5[..3][..2] == Graph5[..2];
    assert Graph5[..4][..3] == Graph5[..3];
  }

  /** The paths run from Ani to Xiufan, and Darren is joined to Xiufan although only Darren lists the edge. */
  lemma Graph5Roles()
    ensures RoleList(Graph5, SenderRole) == ["Ani"]
    ensures RoleList(Graph5, ReceiverRole) == ["Xiufan"]
    ensures ("Xiufan", "Darren") in Edges(Graph5)
  {
    Graph5Prefixes();
    assert Graph5[..4] == Graph5[..|Graph5| - 1];
    assert Lists(Graph5, "Darren", "Xiufan") by {
      assert Graph5[2].name == "Darren" && "Xiufan" in Graph5[2].adjacent;
    }
    EdgesUndirected(Graph5, "Xiufan", "Darren");
  }

  /** One step of the spy filter: the head is dropped exactly when it is a spy. */
  lemma PathNoSpiersCons(g: Graph, path: Path, role: string, rest: Path)
    requires |path| >= 1 && RoleOf(g, path[0]) == Ok(role) && PathNoSpiers(g, path[1..]) == Ok(rest)
    ensures PathNoSpiers(g, path) == Ok(if role == SpierRole then rest else [path[0]] + rest)
  {
  }

  /** The role lookups along the path through the spy. */
  lemma Graph5RoleOf()
    ensures RoleOf(Graph5, "Ani") == Ok(SenderRole)
    ensures RoleOf(Graph5, "Arya") == Ok(TrusterRole)
    ensures RoleOf(Graph5, "Darren") == Ok(SpierRole)
    ensures RoleOf(Graph5, "Xiufan") == Ok(ReceiverRole)
  {
    assert UniqueNames(Graph5);
    assert Declares(Graph5, "Ani", SenderRole) by { assert Graph5[0].name == "Ani"; }
    assert Declares(Graph5, "Arya", TrusterRole) by { assert Graph5[1].name == "Arya"; }
    assert Declares(Graph5, "Darren", SpierRole) by { assert Graph5[2].name == "Darren"; }
    assert Declares(Graph5, "Xiufan", ReceiverRole) by { assert Graph5[4].name == "Xiufan"; }
    RoleOfDeclared(Graph5, "Ani", SenderRole);
    RoleOfDeclared(Graph5, "Arya", TrusterRole);
    RoleOfDeclared(Graph5, "Darren", SpierRole);
    RoleOfDeclared(Graph5, "Xiufan", ReceiverRole);
  }

  /** The roles along the path through the spy. */
  predicate SpyPathRoles(g: Graph) {
    && RoleOf(g, "Ani") == Ok(SenderRole)
    && RoleOf(g, "Arya") == Ok(TrusterRole)
    && RoleOf(g, "Darren") == Ok(SpierRole)
    && RoleOf(g, "Xiufan") == Ok(ReceiverRole)
  }

  /** With those roles, the spy filter drops Darren and keeps the others in order. */
  lemma SpyFiltered(g: Graph)
    requires SpyPathRoles(g)
    ensures PathNoSpiers(g, ["Ani", "Arya", "Darren", "Xiufan"]) == Ok(["Ani", "Arya", "Xiufan"])
  {
    var path: seq<string> := ["Ani", "Arya", "Darren", "Xiufan"];
    assert SpierRole != ReceiverRole && SpierRole != TrusterRole && SpierRole != SenderRole by {
      assert |SpierRole| != |ReceiverRole| && |SpierRole| != |TrusterRole| && SpierRole[1] != SenderRole[1];
    }
    assert path[3..][1..] == [] && path[3..][0] == "Xiufan";
    PathNoSpiersCons(g, path[3..], ReceiverRole, []);
    assert [path[3..][0]] + [] == ["Xiufan"];
    assert path[2..][1..] == path[3..] && path[2..][0] == "Darren";
    PathNoSpiersCons(g, path[2..], SpierRole, ["Xiufan"]);
    assert path[1..][1..] == path[2..] && path[1..][0] == "Arya";
    PathNoSpiersCons(g, path[1..], TrusterRole, ["Xiufan"]);
    assert [path[1..][0]] + ["Xiufan"] == ["Arya", "Xiufan"];
    PathNoSpiersCons(g, path, SenderRole, ["Arya", "Xiufan"]);
    assert [path[0]] + ["Arya", "Xiufan"] == ["Ani", "Arya", "Xiufan"];
  }

  /** With those roles, the spy is skipped and Arya relays straight to Xiufan. */
  lemma SpyBypassed(g: Graph)
    requires SpyPathRoles(g)
    ensures RunPath(g, ["Ani", "Arya", "Darren", "Xiufan"]) ==
      Ok([SenderTask("Ani", "Arya"), TrustedTask("Arya", "Ani", "Xiufan"), ReceiverTask("Xiufan", "Arya")])
  {
    var path: seq<string> := ["Ani", "Arya", "Darren", "Xiufan"];
    var pns: seq<string> := ["Ani", "Arya", "Xiufan"];
    SpyFiltered(g);
    assert RolesAlongChain(g, pns) by {
      assert pns[0] == "Ani" && pns[1] == "Arya" && pns[2] == "Xiufan";
    }
    RunPathChain(g, path);
    assert ChainTasks(pns).value == [TaskAt(pns, 0), TaskAt(pns, 1), TaskAt(pns, 2)];
  }

  /** In the driver's graph, the dispatch along the path through the spy bypasses it. */
  lemma Graph5SpyBypassed()
    ensures RunPath(Graph5, ["Ani", "Arya", "Darren", "Xiufan"]) ==
      Ok([SenderTask("Ani", "Arya"), TrustedTask("Arya", "Ani", "Xiufan"), ReceiverTask("Xiufan", "Arya")])
  {
    Graph5RoleOf();
    SpyBypassed(Graph5);
  }
}
