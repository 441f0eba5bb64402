/** The network's three views of its nodes: the list, the index by account, and the nodes
    believed healthy. */
module ManagedNetworks {
  import opened Wrappers
  import opened Sequences
  import opened ManagedNodes

  datatype NetworkError = CloseFailed | BadAddress

  // ---------------------------------------------------------------- lists of nodes

  /** The nodes with one key, in order. */
  ghost function ByKey(nodes: seq<Node>, key: string): seq<Node>
  {
    if nodes == [] then []
    else
      var init, last := nodes[..|nodes| - 1], nodes[|nodes| - 1];
      if last.key == key then ByKey(init, key) + [last] else ByKey(init, key)
  }

  /** The nodes whose key is wanted, in order. */
  ghost function Kept(nodes: seq<Node>, keys: set<string>): seq<Node>
  {
    if nodes == [] then []
    else if nodes[0].key in keys then [nodes[0]] + Kept(nodes[1..], keys)
    else Kept(nodes[1..], keys)
  }

  /** The nodes in a set, in order. */
  ghost function Among(nodes: seq<Node>, chosen: set<Node>): seq<Node>
  {
    if nodes == [] then []
    else
      var init, last := nodes[..|nodes| - 1], nodes[|nodes| - 1];
      if last in chosen then Among(init, chosen) + [last] else Among(init, chosen)
  }

  /** `index` groups `nodes` by key and holds nothing else. */
  ghost predicate IsIndex(index: map<string, seq<Node>>, nodes: seq<Node>)
  {
    && (forall n :: n in nodes ==> n.key in index)
    && (forall k :: k in index ==> index[k] == ByKey(nodes, k) && index[k] != [])
  }

  lemma {:induction false} ByKeyMembers(nodes: seq<Node>, key: string)
    ensures forall n :: n in ByKey(nodes, key) <==> n in nodes && n.key == key
  {
    if nodes != [] {
      ByKeyMembers(nodes[..|nodes| - 1], key);
      TakeAppend(nodes, |nodes| - 1);
      TakeAll(nodes);
    }
  }

  /** The entry looked up is the one a search of the list finds first. */
  lemma {:induction false} ByKeyFirst(nodes: seq<Node>, key: string, i: nat)
    requires i < |nodes| && nodes[i].key == key
    requires forall j :: 0 <= j < i ==> nodes[j].key != key
    ensures ByKey(nodes, key) != [] && ByKey(nodes, key)[0] == nodes[i]
    decreases |nodes|
  {
    var n := |nodes| - 1;
    if i < n {
      ByKeyFirst(nodes[..n], key, i);
    } else {
      ByKeyAbsent(nodes[..n], key);
    }
  }

  lemma {:induction false} ByKeyAbsent(nodes: seq<Node>, key: string)
    requires forall n :: n in nodes ==> n.key != key
    ensures ByKey(nodes, key) == []
  {
    if nodes != [] {
      ByKeyAbsent(nodes[..|nodes| - 1], key);
    }
  }

  ghost function FirstWithKey(nodes: seq<Node>, key: string): (i: nat)
    requires exists n :: n in nodes && n.key == key
    ensures i < |nodes| && nodes[i].key == key
    ensures forall j :: 0 <= j < i ==> nodes[j].key != key
  {
    if nodes[0].key == key then 0 else 1 + FirstWithKey(nodes[1..], key)
  }

  /** The index answers what a search of the list for the first node of an account would. */
  lemma IndexedIsFirst(index: map<string, seq<Node>>, nodes: seq<Node>, key: string)
    requires IsIndex(index, nodes) && key in index
    ensures exists n :: n in nodes && n.key == key
    ensures index[key][0] == nodes[FirstWithKey(nodes, key)]
  {
    ByKeyMembers(nodes, key);
    assert index[key][0] in nodes;
    ByKeyFirst(nodes, key, FirstWithKey(nodes, key));
  }

  ghost function IndexedUnder(index: map<string, seq<Node>>, key: string): seq<Node>
  {
    if key in index then index[key] else []
  }

  lemma IndexAppend(index: map<string, seq<Node>>, nodes: seq<Node>, node: Node)
    requires IsIndex(index, nodes)
    ensures IsIndex(index[node.key := IndexedUnder(index, node.key) + [node]], nodes + [node])
  {
    var all := nodes + [node];
    assert all[..|all| - 1] == nodes;
    if node.key !in index {
      ByKeyAbsent(nodes, node.key);
    }
  }

  lemma AmongAppend(nodes: seq<Node>, chosen: set<Node>, node: Node)
    requires node !in nodes && node !in chosen
    ensures Among(nodes + [node], chosen) == Among(nodes, chosen)
    ensures Among(nodes + [node], chosen + {node}) == Among(nodes, chosen) + [node]
  {
    var all := nodes + [node];
    assert all[..|all| - 1] == nodes;
    AmongIgnores(nodes, chosen, node);
  }

  lemma {:induction false} AmongIgnores(nodes: seq<Node>, chosen: set<Node>, node: Node)
    requires node !in nodes
    ensures Among(nodes, chosen + {node}) == Among(nodes, chosen)
  {
    if nodes != [] {
      AmongIgnores(nodes[..|nodes| - 1], chosen, node);
    }
  }

  lemma {:induction false} AmongMembers(nodes: seq<Node>, chosen: set<Node>)
    ensures forall n :: n in Among(nodes, chosen) <==> n in nodes && n in chosen
    ensures NoDuplicates(nodes) ==> NoDuplicates(Among(nodes, chosen))
  {
    if nodes != [] {
      var init := nodes[..|nodes| - 1];
      AmongMembers(init, chosen);
      TakeAppend(nodes, |nodes| - 1);
      TakeAll(nodes);
      if NoDuplicates(nodes) {
        assert nodes[|nodes| - 1] !in init;
      }
    }
  }

  lemma {:induction false} KeptMembers(nodes: seq<Node>, keys: set<string>)
    ensures forall n :: n in Kept(nodes, keys) <==> n in nodes && n.key in keys
    ensures NoDuplicates(nodes) ==> NoDuplicates(Kept(nodes, keys))
  {
    if nodes != [] {
      KeptMembers(nodes[1..], keys);
      if NoDuplicates(nodes) {
        assert nodes[0] !in nodes[1..];
      }
    }
  }

  lemma {:induction false} KeptAll(nodes: seq<Node>, keys: set<string>)
    requires forall n :: n in nodes ==> n.key in keys
    ensures Kept(nodes, keys) == nodes
  {
    if nodes != [] {
      KeptAll(nodes[1..], keys);
    }
  }

  lemma {:induction false} KeptConcat(a: seq<Node>, b: seq<Node>, keys: set<string>)
    ensures Kept(a + b, keys) == Kept(a, keys) + Kept(b, keys)
  {
    if a == [] {
      assert a + b == b;
    } else {
      KeptConcat(a[1..], b, keys);
      assert (a + b)[1..] == a[1..] + b;
    }
  }

  ghost predicate AllHealthy(nodes: seq<Node>, now: int)
    reads nodes
  {
    forall n :: n in nodes ==> n.HealthyAt(now)
  }

  lemma NothingGrouped()
    ensures IsIndex(map[], []) && Among([], {}) == []
  {
  }

  /** Groups the nodes by key and picks out those healthy when looked at. */
  method CreateNetworkFromNodes(nodes: seq<Node>, clock: Clock)
    returns (network: map<string, seq<Node>>, healthy: seq<Node>)
    requires NoDuplicates(nodes)
    modifies clock
    ensures old(clock.now) <= clock.now
    ensures IsIndex(network, nodes)
    ensures healthy == Among(nodes, set n | n in healthy)
    ensures NoDuplicates(healthy) && forall n :: n in healthy ==> n in nodes
    ensures AllHealthy(healthy, clock.now)
    ensures forall n :: n in nodes && n.HealthyAt(old(clock.now)) ==> n in healthy
  {
    hide ByKey, Among, IsIndex;
    healthy := [];
    network := map[];
    ghost var done: seq<Node> := [];
    ghost var chosen: set<Node> := {};
    NothingGrouped();
    var i := 0;
    while i < |nodes|
      invariant 0 <= i <= |nodes| && done == nodes[..i]
      invariant old(clock.now) <= clock.now
      invariant IsIndex(network, done)
      invariant healthy == Among(done, chosen)
      invariant forall n :: n in chosen <==> n in healthy
      invariant AllHealthy(healthy, clock.now)
      invariant forall n :: n in done && n.HealthyAt(old(clock.now)) ==> n in chosen
    {
      var node := nodes[i];
      AmongMembers(done, chosen);
      AmongAppend(done, chosen, node);
      IndexAppend(network, done, node);
      var isHealthy := node.IsHealthy(clock);
      if isHealthy {
        healthy := healthy + [node];
        chosen := chosen + {node};
      }
      var value := if node.key in network then network[node.key] else [];
      network := network[node.key := value + [node]];
      done := done + [node];
      i := i + 1;
    }
    TakeAll(nodes);
    assert chosen == set n | n in healthy;
    AmongMembers(nodes, chosen);
  }

  /** Position of a node in a list, or zero when it is not there. */
  ghost function PositionOf(nodes: seq<Node>, node: Node): (i: nat)
    ensures node in nodes ==> i < |nodes| && nodes[i] == node
    ensures node !in nodes ==> i == 0
  {
    if node !in nodes then 0
    else if nodes[0] == node then 0
    else 1 + PositionOf(nodes[1..], node)
  }

  ghost function Without(nodes: seq<Node>, i: nat): seq<Node>
    requires i < |nodes|
  {
    nodes[..i] + nodes[i + 1..]
  }

  lemma WithoutMembers(nodes: seq<Node>, i: nat)
    requires i < |nodes| && NoDuplicates(nodes)
    ensures NoDuplicates(Without(nodes, i))
    ensures forall n :: n in Without(nodes, i) <==> n in nodes && n != nodes[i]
  {
    var w := Without(nodes, i);
    forall n | n in nodes && n != nodes[i] ensures n in w {
      var k :| 0 <= k < |nodes| && nodes[k] == n;
      assert k < i ==> w[k] == n;
      assert k > i ==> w[k - 1] == n;
    }
  }

  /** Taking out at a node's position takes out that node and no other exactly when it is there:
      a node that is not listed loses the first one its place. */
  lemma DelistsExactly(nodes: seq<Node>, node: Node)
    requires NoDuplicates(nodes) && nodes != []
    ensures (forall n :: n in nodes ==> (n in Without(nodes, PositionOf(nodes, node)) <==> n != node))
       <==> node in nodes
    ensures node !in nodes ==> nodes[0] !in Without(nodes, PositionOf(nodes, node))
  {
    hide Without, NoDuplicates;
    WithoutMembers(nodes, PositionOf(nodes, node));
    if node !in nodes {
      assert nodes[0] in nodes && nodes[0] != node;
    }
  }

  /** Indices of the nodes whose key is not wanted, last first. */
  ghost predicate RemovalList(indices: seq<int>, nodes: seq<Node>, keys: set<string>)
  {
    && (forall j :: 0 <= j < |indices| ==> 0 <= indices[j] < |nodes| && nodes[indices[j]].key !in keys)
    && (forall j, k :: 0 <= j < k < |indices| ==> indices[k] < indices[j])
    && (forall i :: 0 <= i < |nodes| && nodes[i].key !in keys ==> i in indices)
  }

  method GetNodesToRemove(network: map<string, Node>, nodes: seq<Node>) returns (nodeIndices: seq<int>)
    ensures RemovalList(nodeIndices, nodes, network.Keys)
  {
    nodeIndices := [];
    var i := |nodes| - 1;
    while i >= 0
      invariant -1 <= i < |nodes|
      invariant forall j :: 0 <= j < |nodeIndices| ==>
          i < nodeIndices[j] < |nodes| && nodes[nodeIndices[j]].key !in network
      invariant forall j, k :: 0 <= j < k < |nodeIndices| ==> nodeIndices[k] < nodeIndices[j]
      invariant forall k :: i < k < |nodes| && nodes[k].key !in network ==> k in nodeIndices
    {
      if nodes[i].key !in network {
        nodeIndices := nodeIndices + [i];
      }
      i := i - 1;
    }
  }

  /** Deleting at a position behind which everything unwanted is gone already. */
  lemma DeleteStep(nodes: seq<Node>, at: nat, cut: nat, keys: set<string>)
    requires at < cut <= |nodes| && nodes[at].key !in keys
    requires forall i :: at < i < cut ==> nodes[i].key in keys
    ensures Without(nodes[..cut] + Kept(nodes[cut..], keys), at) == nodes[..at] + Kept(nodes[at..], keys)
  {
    KeptBehind(nodes, at, cut, keys);
    hide Kept;
    var rest := Kept(nodes[cut..], keys);
    assert Without(nodes[..cut] + rest, at) == nodes[..at] + (nodes[at + 1..cut] + rest);
  }

  lemma KeptSkips(nodes: seq<Node>, keys: set<string>)
    requires nodes != [] && nodes[0].key !in keys
    ensures Kept(nodes, keys) == Kept(nodes[1..], keys)
  {
  }

  lemma KeptBehind(nodes: seq<Node>, at: nat, cut: nat, keys: set<string>)
    requires at < cut <= |nodes| && nodes[at].key !in keys
    requires forall i :: at < i < cut ==> nodes[i].key in keys
    ensures Kept(nodes[at..], keys) == nodes[at + 1..cut] + Kept(nodes[cut..], keys)
  {
    hide Kept;
    var middle := nodes[at + 1..cut];
    KeptAll(middle, keys);
    KeptConcat(middle, nodes[cut..], keys);
    KeptSkips(nodes[at..], keys);
    assert nodes[at..][1..] == middle + nodes[cut..];
  }

  /** Between two neighbours of the removal list every node is wanted. */
  lemma NothingBetween(nodes: seq<Node>, indices: seq<int>, keys: set<string>, j: nat, cut: int)
    requires RemovalList(indices, nodes, keys) && j < |indices|
    requires cut == if j == 0 then |nodes| else indices[j - 1]
    ensures indices[j] < cut <= |nodes|
    ensures forall i :: indices[j] < i < cut ==> nodes[i].key in keys
  {
    forall i | indices[j] < i < cut ensures nodes[i].key in keys {
      assert forall m :: 0 <= m < |indices| ==> indices[m] != i;
    }
  }

  lemma NothingBefore(nodes: seq<Node>, indices: seq<int>, keys: set<string>, cut: int)
    requires RemovalList(indices, nodes, keys)
    requires cut == if indices == [] then |nodes| else indices[|indices| - 1]
    ensures forall i :: 0 <= i < cut ==> nodes[i].key in keys
  {
    forall i | 0 <= i < cut ensures nodes[i].key in keys {
      assert forall m :: 0 <= m < |indices| ==> indices[m] != i;
    }
  }

  /** The next deletion is of a node of the first list, and leaves fewer to be looked at. */
  lemma DeleteNext(nodes: seq<Node>, indices: seq<int>, keys: set<string>, j: nat, cut: int, newNodes: seq<Node>)
    requires RemovalList(indices, nodes, keys) && j < |indices|
    requires cut == if j == 0 then |nodes| else indices[j - 1]
    requires 0 <= cut <= |nodes| && newNodes == nodes[..cut] + Kept(nodes[cut..], keys)
    ensures var at := indices[j];
            && 0 <= at < cut && newNodes[at] == nodes[at] && nodes[at].key !in keys
            && Without(newNodes, at) == nodes[..at] + Kept(nodes[at..], keys)
  {
    hide Kept, Without;
    NothingBetween(nodes, indices, keys, j, cut);
    DeleteStep(nodes, indices[j], cut, keys);
  }

  lemma DeletedAll(nodes: seq<Node>, indices: seq<int>, keys: set<string>, cut: int)
    requires RemovalList(indices, nodes, keys)
    requires cut == if indices == [] then |nodes| else indices[|indices| - 1]
    ensures 0 <= cut <= |nodes| && nodes[..cut] + Kept(nodes[cut..], keys) == Kept(nodes, keys)
  {
    hide Kept;
    NothingBefore(nodes, indices, keys, cut);
    KeptAll(nodes[..cut], keys);
    KeptConcat(nodes[..cut], nodes[cut..], keys);
    assert nodes == nodes[..cut] + nodes[cut..];
  }

  lemma PositionIs(nodes: seq<Node>, node: Node, i: nat)
    requires NoDuplicates(nodes) && i < |nodes|
    requires if node in nodes then nodes[i] == node else i == 0
    ensures PositionOf(nodes, node) == i
  {
  }

  lemma WithoutIs(nodes: seq<Node>, i: nat)
    requires i < |nodes|
    ensures Without(nodes, i) == nodes[..i] + nodes[i + 1..]
    ensures i == |nodes| - 1 ==> Without(nodes, i) == nodes[..i]
  {
  }

  /** Closes and deletes the unwanted nodes, last first, from a copy of the list. */
  method RemoveNodes(nodes: seq<Node>, network: map<string, Node>) returns (r: Result<seq<Node>, NetworkError>)
    modifies (set n | n in nodes)`channelOpen
    ensures r.Ok? ==> r.value == Kept(nodes, network.Keys)
    ensures r.Err? ==> r.error == CloseFailed && exists n :: n in nodes && n.key !in network && old(n.channelOpen)
    ensures forall n :: n in nodes && n.channelOpen ==> old(n.channelOpen)
  {
    hide Kept, RemovalList, Without;
    var newNodes := nodes;
    var indices := GetNodesToRemove(network, nodes);
    KeptNone(nodes[|nodes|..], network.Keys);
    ghost var cut := |nodes|;
    var j := 0;
    while j < |indices|
      invariant 0 <= j <= |indices| && 0 <= cut <= |nodes|
      invariant cut == if j == 0 then |nodes| else indices[j - 1]
      invariant newNodes == nodes[..cut] + Kept(nodes[cut..], network.Keys)
      invariant forall n :: n in nodes && n.channelOpen ==> old(n.channelOpen)
    {
      var index := indices[j];
      DeleteNext(nodes, indices, network.Keys, j, cut, newNodes);
      WithoutIs(newNodes, index);
      var ok := newNodes[index].Close();
      if !ok {
        return Err(CloseFailed);
      }
      if index == |newNodes| - 1 {
        newNodes := newNodes[..index];
      } else {
        newNodes := newNodes[..index] + newNodes[index + 1..];
      }
      cut := index;
      j := j + 1;
    }
    DeletedAll(nodes, indices, network.Keys, cut);
    r := Ok(newNodes);
  }

  /** An entry of the new network is skipped when its key and its address both occur among the
      nodes kept, not necessarily in the same node. */
  ghost predicate Skipped(key: string, node: Node, kept: seq<Node>)
  {
    (exists n :: n in kept && n.key == key) && (exists n :: n in kept && n.address == node.address)
  }

  /** The entries to append, each once, in the unspecified order of a map. */
  ghost predicate IsAdded(added: seq<Node>, network: map<string, Node>, kept: seq<Node>)
  {
    && NoDuplicates(added)
    && (forall n :: n in added ==> exists k :: k in network && network[k] == n && !Skipped(k, n, kept))
    && (forall k :: k in network && !Skipped(k, network[k], kept) ==> network[k] in added)
  }

  method NodesToAdd(network: map<string, Node>, kept: seq<Node>) returns (added: seq<Node>)
    requires forall k, k' :: k in network && k' in network && k != k' ==> network[k] != network[k']
    ensures IsAdded(added, network, kept)
  {
    var newNodeKeys := set n | n in kept :: n.key;
    var newNodeValues := set n | n in kept :: n.address;
    added := [];
    var rest := network.Keys;
    while rest != {}
      invariant rest <= network.Keys
      invariant NoDuplicates(added)
      invariant forall n :: n in added ==>
          exists k :: k in network && k !in rest && network[k] == n && !Skipped(k, n, kept)
      invariant forall k :: k in network && k !in rest && !Skipped(k, network[k], kept) ==> network[k] in added
      decreases |rest|
    {
      var key :| key in rest;
      var value := network[key];
      assert value !in added;
      if !(key in newNodeKeys && value.address in newNodeValues) {
        added := added + [value];
      }
      rest := rest - {key};
    }
  }

  /** What replacing a node list gives: the nodes still wanted in their order, then the new ones. */
  ghost predicate Replaces(newNodes: seq<Node>, nodes: seq<Node>, newNetwork: map<string, Node>)
  {
    var kept := Kept(nodes, newNetwork.Keys);
    kept <= newNodes && IsAdded(newNodes[|kept|..], newNetwork, kept)
  }

  method ReplaceNodes(nodes: seq<Node>, newNetwork: map<string, Node>) returns (r: Result<seq<Node>, NetworkError>)
    requires NoDuplicates(nodes)
    requires forall k, k' :: k in newNetwork && k' in newNetwork && k != k' ==> newNetwork[k] != newNetwork[k']
    requires forall k :: k in newNetwork ==> newNetwork[k] !in nodes
    modifies (set n | n in nodes)`channelOpen
    ensures r.Ok? ==> NoDuplicates(r.value) && Replaces(r.value, nodes, newNetwork)
    ensures r.Err? ==> r.error == CloseFailed && exists n :: n in nodes && n.key !in newNetwork && old(n.channelOpen)
    ensures forall n :: n in nodes && n.channelOpen ==> old(n.channelOpen)
  {
    var removed := RemoveNodes(nodes, newNetwork);
    if removed.Err? {
      return Err(removed.error);
    }
    var kept := removed.value;
    KeptMembers(nodes, newNetwork.Keys);
    var added := NodesToAdd(newNetwork, kept);
    assert forall n :: n in added ==> n !in kept;
    Disjoint(kept, added);
    var newNodes := kept + added;
    assert newNodes[|kept|..] == added;
    r := Ok(newNodes);
  }

  /** When nothing is kept, the list is exactly the new nodes. */
  lemma ReplacesAll(newNodes: seq<Node>, nodes: seq<Node>, newNetwork: map<string, Node>)
    requires Replaces(newNodes, nodes, newNetwork)
    requires forall n :: n in nodes ==> n.key !in newNetwork
    ensures forall n :: n in newNodes ==> exists k :: k in newNetwork && newNetwork[k] == n
    ensures forall k :: k in newNetwork ==> newNetwork[k] in newNodes
  {
    KeptNone(nodes, newNetwork.Keys);
    assert newNodes[0..] == newNodes;
  }

  /** Which nodes a replacement leaves: the old ones whose key is still wanted, and every new one but
      those whose key is that of an old node and whose address is that of an old one still wanted. */
  lemma ReplacedExactly(newNodes: seq<Node>, nodes: seq<Node>, newNetwork: map<string, Node>, node: Node)
    requires Replaces(newNodes, nodes, newNetwork)
    ensures node in newNodes <==>
            || (node in nodes && node.key in newNetwork)
            || (exists k :: && k in newNetwork && newNetwork[k] == node
                            && ((forall n :: n in nodes ==> n.key != k)
                                || (forall n :: n in nodes && n.key in newNetwork ==> n.address != node.address)))
  {
    var kept := Kept(nodes, newNetwork.Keys);
    KeptMembers(nodes, newNetwork.Keys);
    hide Kept, NoDuplicates;
    var added := newNodes[|kept|..];
    assert newNodes == kept + added;
    assert node in newNodes <==> node in kept || node in added;
  }

  class ManagedNetwork {
    var network: map<string, seq<Node>>
    var nodes: seq<Node>
    var healthyNodes: seq<Node>
    var minBackoff: int
    var ledgerID: Option<seq<byte>>
    var transportSecurity: bool

    /** The three views agree: the index groups the node list, and the healthy list draws on it. */
    ghost predicate Valid()
      reads this
    {
      && NoDuplicates(nodes) && NoDuplicates(healthyNodes)
      && (forall n :: n in healthyNodes ==> n in nodes)
      && IsIndex(network, nodes)
    }

    /** Besides, everything in the healthy list is due. */
    ghost predicate Sound(now: int)
      reads this, healthyNodes
    {
      Valid() && AllHealthy(healthyNodes, now)
    }

    constructor ()
      ensures Valid() && nodes == [] && healthyNodes == [] && !transportSecurity && ledgerID == None
      ensures minBackoff == 8_000_000_000
    {
      network := map[];
      nodes := [];
      healthyNodes := [];
      minBackoff := 8_000_000_000;
      ledgerID := None;
      transportSecurity := false;
    }

    /** Re-lists every node that has become due. */
    method ReadmitNodes(clock: Clock)
      requires Sound(clock.now)
      modifies this`healthyNodes, clock
      ensures old(clock.now) <= clock.now && Sound(clock.now)
      ensures old(healthyNodes) <= healthyNodes
      ensures forall n :: n in nodes && n.HealthyAt(old(clock.now)) ==> n in healthyNodes
    {
      hide IsIndex;
      var now := clock.Now();
      var i := 0;
      while i < |nodes|
        invariant 0 <= i <= |nodes| && old(clock.now) <= clock.now
        invariant Sound(clock.now) && old(healthyNodes) <= healthyNodes
        invariant forall k :: 0 <= k < i && nodes[k].HealthyAt(old(clock.now)) ==> nodes[k] in healthyNodes
      {
        var node := nodes[i];
        if node !in healthyNodes {
          var isHealthy := node.IsHealthy(clock);
          if isHealthy {
            healthyNodes := healthyNodes + [node];
          }
        }
        i := i + 1;
      }
    }

    /** Any node of the healthy list may be drawn; without one `_GetNode` panics. */
    method GetNode(clock: Clock) returns (r: Option<Node>)
      requires Sound(clock.now)
      modifies this`healthyNodes, clock
      ensures old(clock.now) <= clock.now && Sound(clock.now)
      ensures old(healthyNodes) <= healthyNodes
      ensures r.Some? ==> r.value in healthyNodes && r.value.HealthyAt(clock.now)
      ensures forall n :: n in nodes && n.HealthyAt(old(clock.now)) ==> n in healthyNodes
      ensures r.None? <==> healthyNodes == []
      ensures r.None? ==> forall n :: n in nodes ==> !n.HealthyAt(old(clock.now))
    {
      ReadmitNodes(clock);
      if |healthyNodes| == 0 {
        return None;
      }
      var index :| 0 <= index < |healthyNodes|;
      r := Some(healthyNodes[index]);
    }

    /** The first node of the account; an unknown account panics before the error return. */
    method GetNodeForAccountID(id: string) returns (node: Node)
      requires Valid() && id in network
      ensures exists n :: n in nodes && n.key == id
      ensures node == nodes[FirstWithKey(nodes, id)] && node.key == id
    {
      node := network[id][0];
      IndexedIsFirst(network, nodes, id);
    }

    method GetNetwork() returns (r: map<NodeAddress, string>)
      ensures LastAccounts(r, nodes)
    {
      r := map[];
      var i := 0;
      while i < |nodes|
        invariant 0 <= i <= |nodes| && LastAccounts(r, nodes[..i])
      {
        AccountsNext(r, nodes, i);
        r := r[nodes[i].address := nodes[i].key];
        i := i + 1;
      }
      TakeAll(nodes);
    }

    /** Marks a failure and delists a node: the failed one when it is listed, otherwise whichever
        comes first. On an empty list the slicing panics. */
    method IncreaseBackoff(node: Node, clock: Clock) returns (ok: bool)
      requires Sound(clock.now) && node in nodes
      modifies this`healthyNodes, clock, node`badGrpcStatusCount, node`currentBackoff, node`readmitTime
      ensures old(clock.now) <= clock.now && Sound(clock.now)
      ensures node.badGrpcStatusCount == old(node.badGrpcStatusCount) + 1
      ensures node.currentBackoff == Doubled(old(node.currentBackoff), node.maxBackoff)
      ensures node.readmitTime == Some(clock.now + node.currentBackoff)
      ensures node !in healthyNodes
      ensures ok <==> old(healthyNodes) != []
      ensures ok ==> healthyNodes == Without(old(healthyNodes), PositionOf(old(healthyNodes), node))
      // The failed node alone loses its place exactly when it had one.
      ensures ok ==>
                ((forall n :: n in old(healthyNodes) ==> (n in healthyNodes <==> n != node))
                 <==> node in old(healthyNodes))
      ensures ok && node !in old(healthyNodes) ==> old(healthyNodes)[0] !in healthyNodes
      ensures forall n :: n in healthyNodes ==> n in old(healthyNodes)
      ensures !ok ==> healthyNodes == old(healthyNodes)
    {
      hide IsIndex, Doubled, Without, NoDuplicates, PositionOf;
      node.IncreaseBackoff(clock);
      var index := 0;
      var i := 0;
      while i < |healthyNodes|
        invariant 0 <= i <= |healthyNodes|
        invariant index == 0 && node !in healthyNodes[..i]
      {
        if node == healthyNodes[i] {
          index := i;
          break;
        }
        i := i + 1;
      }
      if |healthyNodes| == 0 {
        return false;
      }
      PositionIs(healthyNodes, node, index);
      WithoutMembers(healthyNodes, index);
      DelistsExactly(healthyNodes, node);
      WithoutIs(healthyNodes, index);
      if index == |healthyNodes| - 1 {
        healthyNodes := healthyNodes[..index];
      } else {
        healthyNodes := healthyNodes[..index] + healthyNodes[index + 1..];
      }
      assert healthyNodes == Without(old(healthyNodes), index);
      ok := true;
    }

    /** Replaces the node list. `SetNetwork` passes a map of nodes made for the call,
        so its values are distinct and not listed yet. */
    method SetNetwork(newNetwork: map<string, Node>, clock: Clock) returns (error: Option<NetworkError>)
      requires Valid()
      requires OneEach(newNetwork) && forall n :: n in newNetwork.Values ==> n !in nodes
      modifies this`network, this`nodes, this`healthyNodes, this`ledgerID, clock, (set n | n in nodes)`channelOpen
      ensures old(clock.now) <= clock.now && Valid()
      // Only an open channel of a node to be dropped can fail to close.
      ensures error.Some? ==> unchanged(`network, `nodes, `healthyNodes, `ledgerID)
      ensures error.Some? ==>
                error == Some(CloseFailed) && exists n :: n in nodes && n.key !in newNetwork && old(n.channelOpen)
      ensures forall n :: n in old(nodes) && n.channelOpen ==> old(n.channelOpen)
      ensures error.None? ==>
                && Sound(clock.now) && ledgerID == None
                && Replaces(nodes, old(nodes), newNetwork)
      ensures error.None? ==> forall n :: n in nodes && n.HealthyAt(old(clock.now)) ==> n in healthyNodes
    {
      hide Replaces, IsIndex, Among;
      var newNodes := ReplaceNodes(nodes, newNetwork);
      if newNodes.Err? {
        return Some(newNodes.error);
      }
      var newIndex, newHealthyNodes := CreateNetworkFromNodes(newNodes.value, clock);
      nodes := newNodes.value;
      network := newIndex;
      healthyNodes := newHealthyNodes;
      ledgerID := None;
      error := None;
    }

    /** Replaces every node by a copy on the other port, when the setting changes. */
    method SetTransportSecurity(secure: bool, clock: Clock) returns (error: Option<NetworkError>)
      requires Sound(clock.now)
      modifies this`network, this`nodes, this`healthyNodes, this`transportSecurity, clock,
          (set n | n in nodes)`channelOpen
      ensures old(clock.now) <= clock.now && Sound(clock.now)
      // Only a change with an open channel of a listed node can fail, and then some listed ones are closed.
      ensures error.Some? ==>
                && error == Some(CloseFailed) && secure != old(transportSecurity)
                && exists n :: n in old(healthyNodes) && old(n.channelOpen)
      ensures forall n :: n in old(nodes) && n.channelOpen ==> old(n.channelOpen)
      ensures secure == old(transportSecurity) ==> forall n :: n in old(nodes) ==> n.channelOpen == old(n.channelOpen)
      ensures error.Some? || secure == old(transportSecurity) ==>
                network == old(network) && nodes == old(nodes) && healthyNodes == old(healthyNodes)
      ensures error.Some? ==> transportSecurity == old(transportSecurity)
      ensures error.None? ==> transportSecurity == secure
      ensures error.None? && secure != old(transportSecurity) ==>
                && |nodes| == |old(nodes)|
                && forall i :: 0 <= i < |nodes| ==>
                                 && fresh(nodes[i]) && CopyOf(nodes[i], old(nodes)[i], secure)
                                 && nodes[i].channelOpen == old(nodes[i].channelOpen && nodes[i] !in healthyNodes)
      ensures error.None? && secure != old(transportSecurity) ==>
                forall n :: n in nodes && n.HealthyAt(old(clock.now)) ==> n in healthyNodes
    {
      hide IsIndex, Among;
      if transportSecurity != secure {
        var closed := CloseAll(healthyNodes);
        if !closed {
          return Some(CloseFailed);
        }
        var newNodes := CopyNodes(nodes, secure);
        var newIndex, newHealthyNodes := CreateNetworkFromNodes(newNodes, clock);
        nodes := newNodes;
        healthyNodes := newHealthyNodes;
        network := newIndex;
      }
      transportSecurity := secure;
      error := None;
    }

    /** The public operation makes a fresh node for every address, filed under the address. Node
        keys are account IDs, which hold no colon, so no node in use is ever recognised: all are
        dropped, and with them what was learnt of their health. */
    method SetNetworkByAddress(net: map<string, string>, clock: Clock) returns (error: Option<NetworkError>)
      requires Valid()
      requires forall n :: n in nodes ==> ':' !in n.key
      requires forall url :: url in net ==> ':' !in net[url]
      modifies this`network, this`nodes, this`healthyNodes, this`ledgerID, clock, (set n | n in nodes)`channelOpen
      ensures old(clock.now) <= clock.now && Valid()
      // An address that does not parse is reported; otherwise only an open channel can make it fail.
      ensures error == Some(BadAddress) <==> exists url :: url in net && ParseAddress(url).None?
      ensures error == Some(CloseFailed) ==> exists n :: n in old(nodes) && old(n.channelOpen)
      ensures error == Some(BadAddress) ==> forall n :: n in old(nodes) ==> n.channelOpen == old(n.channelOpen)
      ensures forall n :: n in old(nodes) && n.channelOpen ==> old(n.channelOpen)
      ensures error.Some? ==> unchanged(`network, `nodes, `healthyNodes, `ledgerID)
      ensures error.None? || old(Sound(clock.now)) ==> Sound(clock.now)
      ensures error.None? ==> forall n :: n in nodes ==> fresh(n) && n in healthyNodes
      ensures error.None? ==> MadeOf(nodes, net, minBackoff)
      // A new node's backoff starts at the network's minimum.
      ensures error.None? ==>
                forall n :: n in nodes ==>
                              && n.minBackoff == n.currentBackoff == minBackoff && n.maxBackoff == 3_600_000_000_000
                              && (0 < minBackoff <= 3_600_000_000_000 ==> n.BackoffInRange())
    {
      hide NoDuplicates, IsIndex, Replaces, MadeOf, MadeFor, ParseAddress, Node.BackoffInRange;
      var made, newNetwork := MakeNodes(net, minBackoff, clock);
      if !made {
        return Some(BadAddress);
      }
      ghost var before, started := nodes, clock.now;
      error := SetNetwork(newNetwork, clock);
      if error.None? {
        AllReplaced(nodes, before, net, minBackoff, newNetwork);
        MadeAreDue(nodes, net, minBackoff, started);
        MadeInRange(nodes, net, minBackoff);
      }
    }
  }

  /** Every address of the list with the account of the last node there. */
  ghost predicate LastAccounts(r: map<NodeAddress, string>, nodes: seq<Node>)
  {
    && (forall n :: n in nodes ==> n.address in r)
    && (forall a :: a in r ==> exists i :: 0 <= i < |nodes| && LastAt(nodes, i, a) && r[a] == nodes[i].key)
  }

  ghost predicate LastAt(nodes: seq<Node>, i: nat, address: NodeAddress)
    requires i < |nodes|
  {
    nodes[i].address == address && forall j :: i < j < |nodes| ==> nodes[j].address != address
  }

  lemma AccountsNext(r: map<NodeAddress, string>, nodes: seq<Node>, i: nat)
    requires i < |nodes| && LastAccounts(r, nodes[..i])
    ensures LastAccounts(r[nodes[i].address := nodes[i].key], nodes[..i + 1])
  {
    var r', before, after := r[nodes[i].address := nodes[i].key], nodes[..i], nodes[..i + 1];
    forall a | a in r' ensures exists k :: 0 <= k < |after| && LastAt(after, k, a) && r'[a] == after[k].key {
      if a == nodes[i].address {
        assert LastAt(after, i, a);
      } else {
        var k :| 0 <= k < |before| && LastAt(before, k, a) && r[a] == before[k].key;
        assert LastAt(after, k, a) && after[k] == before[k];
      }
    }
  }

  lemma ListedAccount(nodes: seq<Node>, net: map<string, string>, min: int, r: map<NodeAddress, string>, a: NodeAddress)
    returns (url: string)
    requires NodesMade(nodes, net, min) && LastAccounts(r, nodes) && a in r
    ensures url in net && ParseAddress(url) == Some(a) && r[a] == net[url]
  {
    hide ParseAddress;
    var i :| 0 <= i < |nodes| && LastAt(nodes, i, a) && r[a] == nodes[i].key;
    assert nodes[i] in nodes;
    url :| url in net && MadeFor(nodes[i], url, net[url], min);
  }

  lemma ListedAddress(nodes: seq<Node>, net: map<string, string>, min: int, r: map<NodeAddress, string>, url: string)
    requires AddressesMade(nodes, net, min) && LastAccounts(r, nodes) && url in net
    ensures ParseAddress(url).Some? && ParseAddress(url).value in r
  {
    hide ParseAddress;
    var n :| n in nodes && MadeFor(n, url, net[url], min);
  }

  /** What was set comes back, address by address, when no two URLs name the same address. */
  lemma GetInvertsSet(nodes: seq<Node>, net: map<string, string>, min: int, r: map<NodeAddress, string>)
    requires MadeOf(nodes, net, min) && LastAccounts(r, nodes)
    requires forall u, v :: u in net && v in net && ParseAddress(u) == ParseAddress(v) ==> u == v
    ensures forall url :: url in net ==>
        ParseAddress(url).Some? && ParseAddress(url).value in r && r[ParseAddress(url).value] == net[url]
    ensures forall a :: a in r ==> exists url :: url in net && ParseAddress(url) == Some(a)
  {
    hide NodesMade, AddressesMade, LastAccounts, ParseAddress;
    forall a | a in r ensures exists url :: url in net && ParseAddress(url) == Some(a) {
      var url := ListedAccount(nodes, net, min, r, a);
    }
    forall url | url in net
      ensures ParseAddress(url).Some? && ParseAddress(url).value in r && r[ParseAddress(url).value] == net[url]
    {
      ListedAddress(nodes, net, min, r, url);
      var again := ListedAccount(nodes, net, min, r, ParseAddress(url).value);
    }
  }

  /** A node nobody has used yet. Its backoff starts at `min` and may grow to an hour. */
  ghost predicate MadeFor(node: Node, url: string, key: string, min: int)
    reads node
  {
    && ParseAddress(url) == Some(node.address) && node.key == key
    && node.readmitTime == None && node.useCount == 0 && node.badGrpcStatusCount == 0
    && node.minBackoff == min && node.currentBackoff == min && node.maxBackoff == 3_600_000_000_000
  }

  ghost predicate NodesMade(nodes: seq<Node>, net: map<string, string>, min: int)
    reads nodes
  {
    forall n :: n in nodes ==> exists url :: url in net && MadeFor(n, url, net[url], min)
  }

  ghost predicate AddressesMade(nodes: seq<Node>, net: map<string, string>, min: int)
    reads nodes
  {
    forall url :: url in net ==> exists n :: n in nodes && MadeFor(n, url, net[url], min)
  }

  /** The nodes are exactly one unused node for every address. */
  ghost predicate MadeOf(nodes: seq<Node>, net: map<string, string>, min: int)
    reads nodes
  {
    NodesMade(nodes, net, min) && AddressesMade(nodes, net, min)
  }

  lemma MadeOfAll(nodes: seq<Node>, net: map<string, string>, min: int, made: map<string, Node>)
    requires made.Keys == net.Keys
    requires forall url :: url in made ==> url in net && MadeFor(made[url], url, net[url], min)
    requires forall n :: n in nodes ==> exists k :: k in made && made[k] == n
    requires forall k :: k in made ==> made[k] in nodes
    ensures MadeOf(nodes, net, min)
  {
    forall url | url in net ensures exists n :: n in nodes && MadeFor(n, url, net[url], min) {
      assert made[url] in nodes;
    }
  }

  lemma MadeAreDue(nodes: seq<Node>, net: map<string, string>, min: int, now: int)
    requires MadeOf(nodes, net, min)
    ensures forall n :: n in nodes ==> n.HealthyAt(now)
  {
  }

  lemma MadeInRange(nodes: seq<Node>, net: map<string, string>, min: int)
    requires MadeOf(nodes, net, min)
    ensures forall n :: n in nodes ==>
                          && n.minBackoff == n.currentBackoff == min && n.maxBackoff == 3_600_000_000_000
                          && (0 < min <= 3_600_000_000_000 ==> n.BackoffInRange())
  {
    hide AddressesMade;
    forall n | n in nodes
      ensures n.minBackoff == n.currentBackoff == min && n.maxBackoff == 3_600_000_000_000
    {
      var url := MadeUrl(nodes, net, min, n);
      MadeBackoff(n, url, net[url], min);
    }
  }

  lemma MadeUrl(nodes: seq<Node>, net: map<string, string>, min: int, n: Node) returns (url: string)
    requires NodesMade(nodes, net, min) && n in nodes
    ensures url in net && MadeFor(n, url, net[url], min)
  {
    hide MadeFor;
    url :| url in net && MadeFor(n, url, net[url], min);
  }

  lemma MadeBackoff(n: Node, url: string, key: string, min: int)
    requires MadeFor(n, url, key, min)
    ensures n.minBackoff == n.currentBackoff == min && n.maxBackoff == 3_600_000_000_000
  {
    hide ParseAddress;
  }

  /** Every entry is an unused node for its address. */
  ghost predicate EachMadeFor(made: map<string, Node>, net: map<string, string>, min: int)
    reads made.Values
  {
    forall url :: url in made ==> ':' in url && url in net && MadeFor(made[url], url, net[url], min)
  }

  ghost predicate OneEach(made: map<string, Node>)
  {
    forall k, k' :: k in made && k' in made && k != k' ==> made[k] != made[k']
  }

  lemma NoneMade(net: map<string, string>, min: int)
    ensures EachMadeFor(map[], net, min) && OneEach(map[])
  {
  }

  lemma OneMoreMade(made: map<string, Node>, net: map<string, string>, min: int, url: string, node: Node)
    requires EachMadeFor(made, net, min) && OneEach(made)
    requires url !in made && node !in made.Values && ':' in url && url in net && MadeFor(node, url, net[url], min)
    ensures EachMadeFor(made[url := node], net, min) && OneEach(made[url := node])
    ensures made[url := node].Values <= made.Values + {node}
  {
    hide MadeFor;
  }

  lemma AllReplaced(nodes: seq<Node>, before: seq<Node>, net: map<string, string>, min: int, made: map<string, Node>)
    requires Replaces(nodes, before, made) && made.Keys == net.Keys
    requires forall n :: n in before ==> ':' !in n.key
    requires EachMadeFor(made, net, min)
    ensures MadeOf(nodes, net, min)
    ensures forall n :: n in nodes ==> n in made.Values
  {
    ReplacesAll(nodes, before, made);
    MadeOfAll(nodes, net, min, made);
  }

  /** The copy keeps the account and the backoff history; its maximum backoff is lost. */
  twostate predicate CopyOf(new copy: Node, from: Node, secure: bool)
    reads copy
  {
    && copy.key == from.key
    && copy.address == (if secure then from.address.ToSecure() else from.address.ToInsecure())
    && copy.readmitTime == old(from.readmitTime) && copy.currentBackoff == old(from.currentBackoff)
    && copy.minBackoff == old(from.minBackoff)
    && copy.useCount == old(from.useCount) && copy.badGrpcStatusCount == old(from.badGrpcStatusCount)
    && copy.maxBackoff == 0
  }

  lemma Disjoint(kept: seq<Node>, added: seq<Node>)
    requires NoDuplicates(kept) && NoDuplicates(added)
    requires forall n :: n in added ==> n !in kept
    ensures NoDuplicates(kept + added)
  {
    var all := kept + added;
    forall i, j | 0 <= i < j < |all| ensures all[i] != all[j] {
      if i < |kept| <= j {
        assert added[j - |kept|] !in kept;
      }
    }
  }

  lemma {:induction false} KeptNone(nodes: seq<Node>, keys: set<string>)
    requires forall n :: n in nodes ==> n.key !in keys
    ensures Kept(nodes, keys) == []
  {
    if nodes != [] {
      KeptNone(nodes[1..], keys);
    }
  }

  /** Only an open channel can fail to close. */
  method CloseAll(nodes: seq<Node>) returns (ok: bool)
    modifies (set n | n in nodes)`channelOpen
    ensures forall n :: n in nodes && n.channelOpen ==> old(n.channelOpen)
    ensures ok ==> forall n :: n in nodes ==> !n.channelOpen
    ensures !ok ==> exists n :: n in nodes && old(n.channelOpen)
  {
    var i := 0;
    while i < |nodes|
      invariant 0 <= i <= |nodes|
      invariant forall n :: n in nodes && n.channelOpen ==> old(n.channelOpen)
      invariant forall k :: 0 <= k < i ==> !nodes[k].channelOpen
    {
      ok := nodes[i].Close();
      if !ok {
        return;
      }
      i := i + 1;
    }
    ok := true;
  }

  method CopyNodes(nodes: seq<Node>, secure: bool) returns (copies: seq<Node>)
    ensures |copies| == |nodes| && NoDuplicates(copies)
    ensures forall i :: 0 <= i < |copies| ==> fresh(copies[i]) && CopyOf(copies[i], nodes[i], secure)
    ensures forall i :: 0 <= i < |copies| ==> copies[i].channelOpen == nodes[i].channelOpen
  {
    copies := [];
    var i := 0;
    while i < |nodes|
      invariant 0 <= i <= |nodes| && |copies| == i && NoDuplicates(copies)
      invariant forall j :: 0 <= j < i ==> fresh(copies[j]) && CopyOf(copies[j], nodes[j], secure)
      invariant forall j :: 0 <= j < i ==> copies[j].channelOpen == nodes[j].channelOpen
    {
      var copy := new Node.Copy(nodes[i], secure);
      copies := copies + [copy];
      i := i + 1;
    }
  }

  method NewNode(key: string, url: string, minBackoff: int, clock: Clock) returns (node: Option<Node>)
    modifies clock
    ensures old(clock.now) <= clock.now
    ensures node.Some? <==> ParseAddress(url).Some?
    ensures node.Some? ==> ':' in url && fresh(node.value) && MadeFor(node.value, url, key, minBackoff)
  {
    var now := clock.Now();
    var address := ParseAddress(url);
    if address.None? {
      return None;
    }
    var made := new Node(key, address.value, minBackoff, now);
    node := Some(made);
  }

  lemma AllParse(net: map<string, string>, min: int, made: map<string, Node>)
    requires made.Keys == net.Keys && EachMadeFor(made, net, min)
    ensures forall url :: url in net ==> ParseAddress(url).Some?
  {
  }

  /** One unused node for every address, or none at all when an address does not parse. */
  method MakeNodes(net: map<string, string>, minBackoff: int, clock: Clock) returns (ok: bool, made: map<string, Node>)
    modifies clock
    ensures old(clock.now) <= clock.now
    ensures ok <==> forall url :: url in net ==> ParseAddress(url).Some?
    ensures ok ==> made.Keys == net.Keys
    ensures EachMadeFor(made, net, minBackoff) && OneEach(made) && fresh(made.Values)
  {
    hide EachMadeFor, OneEach, MadeFor, ParseAddress;
    NoneMade(net, minBackoff);
    made := map[];
    var rest := net.Keys;
    while rest != {}
      invariant forall url :: url in net <==> url in made || url in rest
      invariant forall url :: url in rest ==> url !in made
      invariant old(clock.now) <= clock.now
      invariant EachMadeFor(made, net, minBackoff) && OneEach(made) && fresh(made.Values)
      decreases |rest|
    {
      var url :| url in rest;
      var node := NewNode(net[url], url, minBackoff, clock);
      if node.None? {
        return false, made;
      }
      OneMoreMade(made, net, minBackoff, url, node.value);
      made := made[url := node.value];
      rest := rest - {url};
    }
    AllParse(net, minBackoff, made);
    ok := true;
  }
}
