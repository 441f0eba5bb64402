/** Runs of a network: each operation takes what is seen of it one step of the relation `Next`. */
module NetworkRuns {
  import opened Wrappers
  import opened Sequences
  import opened ManagedNodes
  import opened ManagedNetworks
  import opened Execution
  import opened NetworkViews
  import opened RunLaws

  /** Account IDs hold no colon. */
  predicate PlainKeys(nodes: seq<Node>)
  {
    forall n :: n in nodes ==> ':' !in n.key
  }

  predicate PlainAccounts(net: map<string, string>)
  {
    forall url :: url in net ==> ':' !in net[url]
  }

  lemma PlainMade(nodes: seq<Node>, net: map<string, string>, min: int)
    requires MadeOf(nodes, net, min) && PlainAccounts(net)
    ensures PlainKeys(nodes)
  {
  }

  lemma SoundView(network: ManagedNetwork, clock: Clock)
    requires network.Sound(clock.now)
    ensures Sane(ViewOf(network, clock)) && network.Valid()
  {
  }

  // ---------------------------------------------------------------- the events one by one

  method StepReadmit(network: ManagedNetwork, clock: Clock) returns (h: Happened)
    requires network.Sound(clock.now)
    modifies network`healthyNodes, clock
    ensures network.Sound(clock.now) && Sane(ViewOf(network, clock))
    ensures h == Quiet && old(clock.now) <= clock.now && Relisted(old(ViewOf(network, clock)), ViewOf(network, clock))
  {
    hide ManagedNetwork.Sound, ManagedNetwork.Valid, StatesOf, Sane;
    ghost var s := ViewOf(network, clock);
    network.ReadmitNodes(clock);
    SoundView(network, clock);
    DueAreListed(network, clock, s.now);
    h := Quiet;
  }

  lemma DueAreListed(network: ManagedNetwork, clock: Clock, since: int)
    requires network.Sound(clock.now)
    requires forall n :: n in network.nodes && n.HealthyAt(since) ==> n in network.healthyNodes
    ensures Sane(ViewOf(network, clock)) && DueListed(ViewOf(network, clock), since)
  {
  }

  method StepPick(network: ManagedNetwork, clock: Clock) returns (h: Happened)
    requires network.Sound(clock.now)
    modifies network`healthyNodes, clock
    ensures network.Sound(clock.now) && Sane(ViewOf(network, clock))
    ensures old(clock.now) <= clock.now && Relisted(old(ViewOf(network, clock)), ViewOf(network, clock))
    ensures h.Drawn? && h.at == clock.now
    ensures h.node.None? <==> network.healthyNodes == []
    ensures h.node.Some? ==> h.node.value in network.healthyNodes
  {
    hide ManagedNetwork.Sound, ManagedNetwork.Valid, StatesOf, Sane;
    ghost var s := ViewOf(network, clock);
    var node := network.GetNode(clock);
    SoundView(network, clock);
    DueAreListed(network, clock, s.now);
    h := Drawn(node, clock.now);
  }

  lemma StatesGiven(network: ManagedNetwork, clock: Clock)
    ensures forall n :: n in network.nodes ==>
                          n in ViewOf(network, clock).states && ViewOf(network, clock).states[n] == StateOf(n)
  {
  }

  lemma ChangedView(network: ManagedNetwork, clock: Clock, s: View, node: Node, state: NodeState)
    requires network.Sound(clock.now) && Sane(s)
    requires network.nodes == s.nodes && network.transportSecurity == s.secure && network.minBackoff == s.min
    requires forall n :: n in network.nodes ==> StateOf(n) == if n == node then state else s.states[n]
    ensures Sane(ViewOf(network, clock)) && OneChanged(s, ViewOf(network, clock), node, state, network.healthyNodes)
  {
    hide ManagedNetwork.Sound, Sane;
    SoundView(network, clock);
    StatesGiven(network, clock);
    hide StatesOf;
  }

  method StepFail(network: ManagedNetwork, index: nat, clock: Clock) returns (h: Happened)
    requires network.Sound(clock.now) && index < |network.nodes|
    modifies network`healthyNodes, network.nodes[index], clock
    ensures network.Sound(clock.now) && old(clock.now) <= clock.now
    ensures var n, s, t := network.nodes[index], old(ViewOf(network, clock)), ViewOf(network, clock);
            && Sane(s) && Sane(t)
            && var state := FailedState(s.states[n], t.now);
               OneChanged(s, t, n, state, WithoutFailed(s.healthy, n)) && h == FailedUntil(n, state.readmit.value)
  {
    hide ManagedNetwork.Sound, ManagedNetwork.Valid, Doubled, Without, PositionOf, Sane, OneChanged, StatesOf;
    SoundView(network, clock);
    var node := network.nodes[index];
    ghost var s := ViewOf(network, clock);
    StatesGiven(network, clock);
    var _ := network.IncreaseBackoff(node, clock);
    ChangedView(network, clock, s, node, FailedState(s.states[node], clock.now));
    h := FailedUntil(node, node.readmitTime.value);
  }

  method StepSucceed(network: ManagedNetwork, index: nat, clock: Clock) returns (h: Happened)
    requires network.Sound(clock.now) && index < |network.nodes|
    modifies network.nodes[index]
    ensures network.Sound(clock.now) && h == Quiet
    ensures var n, s, t := network.nodes[index], old(ViewOf(network, clock)), ViewOf(network, clock);
            Sane(s) && Sane(t) && OneChanged(s, t, n, EasedState(s.states[n]), s.healthy)
  {
    hide Halved, Sane, IsIndex, NoDuplicates, OneChanged, StatesOf;
    SoundView(network, clock);
    StatesGiven(network, clock);
    var node := network.nodes[index];
    ghost var s := ViewOf(network, clock);
    node.DecreaseBackoff();
    ChangedView(network, clock, s, node, EasedState(s.states[node]));
    h := Quiet;
  }

  lemma SameView(network: ManagedNetwork, clock: Clock, s: View)
    requires network.Sound(clock.now) && Sane(s)
    requires network.nodes == s.nodes && network.healthyNodes == s.healthy && network.transportSecurity == s.secure
    requires network.minBackoff == s.min
    requires forall n :: n in network.nodes ==> StateOf(n) == s.states[n]
    ensures Sane(ViewOf(network, clock)) && Unchanged(s, ViewOf(network, clock))
  {
    SoundView(network, clock);
    StatesGiven(network, clock);
    assert ViewOf(network, clock).states == s.states;
  }

  lemma NotClosedView(network: ManagedNetwork, clock: Clock, s: View, tried: seq<Node>)
    requires network.Sound(clock.now) && Sane(s)
    requires network.nodes == s.nodes && network.healthyNodes == s.healthy && network.transportSecurity == s.secure
    requires network.minBackoff == s.min
    requires exists n :: n in tried && n in s.states && s.states[n].open
    requires forall n :: n in network.nodes ==>
                           StateOf(n) == s.states[n].(open := n.channelOpen) && (n.channelOpen ==> s.states[n].open)
    ensures Sane(ViewOf(network, clock)) && NotClosed(s, ViewOf(network, clock), tried)
  {
    hide ManagedNetwork.Sound, Sane;
    SoundView(network, clock);
    StatesGiven(network, clock);
    hide StatesOf;
  }

  lemma CopiedView(network: ManagedNetwork, clock: Clock, s: View, secure: bool)
    requires network.Sound(clock.now) && Sane(s)
    requires network.transportSecurity == secure && network.minBackoff == s.min && |network.nodes| == |s.nodes|
    requires forall n :: n in network.nodes && n.HealthyAt(s.now) ==> n in network.healthyNodes
    requires forall i :: 0 <= i < |s.nodes| ==>
                           && network.nodes[i] !in s.nodes && network.nodes[i].key == s.nodes[i].key
                           && network.nodes[i].address
                              == (if secure then s.nodes[i].address.ToSecure() else s.nodes[i].address.ToInsecure())
                           && StateOf(network.nodes[i]) == CopiedState(s.states[s.nodes[i]], s.nodes[i] in s.healthy)
    ensures Sane(ViewOf(network, clock)) && Copied(s, ViewOf(network, clock), secure)
  {
    hide ManagedNetwork.Sound, Sane, CopiedState;
    DueAreListed(network, clock, s.now);
    StatesGiven(network, clock);
    hide StatesOf, DueListed;
  }

  method StepSecure(network: ManagedNetwork, secure: bool, clock: Clock) returns (h: Happened)
    requires network.Sound(clock.now)
    modifies network, network.nodes, clock
    ensures network.Sound(clock.now) && old(clock.now) <= clock.now && h == Quiet
    ensures forall n :: n in network.nodes ==> n in old(network.nodes) || fresh(n)
    ensures PlainKeys(old(network.nodes)) ==> PlainKeys(network.nodes)
    ensures var s, t := old(ViewOf(network, clock)), ViewOf(network, clock);
            Sane(s) && Sane(t) && if secure == s.secure then Unchanged(s, t)
                                  else NotClosed(s, t, s.healthy) || Copied(s, t, secure)
  {
    hide ManagedNetwork.Sound, ManagedNetwork.Valid, Sane, Unchanged, NotClosed, Copied, StatesOf;
    SoundView(network, clock);
    StatesGiven(network, clock);
    ghost var s := ViewOf(network, clock);
    var error := network.SetTransportSecurity(secure, clock);
    if secure == s.secure {
      SameView(network, clock, s);
    } else if error.Some? {
      ListedIn(s);
      NotClosedView(network, clock, s, s.healthy);
    } else {
      CopiedView(network, clock, s, secure);
    }
    h := Quiet;
  }

  lemma ListedIn(s: View)
    requires Sane(s)
    ensures forall n :: n in s.healthy ==> n in s.nodes
    ensures forall n :: n in s.nodes ==> n in s.states
  {
  }

  lemma RenewedView(network: ManagedNetwork, clock: Clock, s: View, net: map<string, string>)
    requires network.Sound(clock.now) && network.transportSecurity == s.secure && network.minBackoff == s.min
    requires MadeOf(network.nodes, net, network.minBackoff)
    requires forall n :: n in network.nodes ==> n !in s.nodes && n in network.healthyNodes
    ensures Sane(ViewOf(network, clock)) && Renewed(s, ViewOf(network, clock), net)
  {
    hide ManagedNetwork.Sound, Sane, NewFor, MadeFor, StatesOf, NodesMade, AddressesMade;
    SoundView(network, clock);
    NodesAreNew(network, clock, net);
    AddressesAreServed(network, clock, net);
  }

  lemma NodesAreNew(network: ManagedNetwork, clock: Clock, net: map<string, string>)
    requires network.Sound(clock.now) && NodesMade(network.nodes, net, network.minBackoff)
    ensures var t := ViewOf(network, clock);
            Sane(t) && forall n :: n in t.nodes ==> exists url :: url in net && NewFor(t, n, url, net[url])
  {
    hide ManagedNetwork.Sound, Sane, NewFor, MadeFor, StatesOf, NodesMade;
    SoundView(network, clock);
    var t := ViewOf(network, clock);
    forall n | n in t.nodes ensures exists url :: url in net && NewFor(t, n, url, net[url]) {
      var url := MadeUrl(network.nodes, net, network.minBackoff, n);
      MadeIsNew(network, clock, n, url, net[url]);
    }
  }

  lemma AddressesAreServed(network: ManagedNetwork, clock: Clock, net: map<string, string>)
    requires network.Sound(clock.now) && AddressesMade(network.nodes, net, network.minBackoff)
    ensures var t := ViewOf(network, clock);
            Sane(t) && forall url :: url in net ==> exists n :: n in t.nodes && NewFor(t, n, url, net[url])
  {
    hide ManagedNetwork.Sound, Sane, NewFor, MadeFor, StatesOf, AddressesMade;
    SoundView(network, clock);
    var t := ViewOf(network, clock);
    forall url | url in net ensures exists n :: n in t.nodes && NewFor(t, n, url, net[url]) {
      var n := NodeOf(network.nodes, net, network.minBackoff, url);
      MadeIsNew(network, clock, n, url, net[url]);
    }
  }

  lemma NodeOf(nodes: seq<Node>, net: map<string, string>, min: int, url: string) returns (n: Node)
    requires AddressesMade(nodes, net, min) && url in net
    ensures n in nodes && MadeFor(n, url, net[url], min)
  {
    hide MadeFor;
    n :| n in nodes && MadeFor(n, url, net[url], min);
  }

  lemma MadeIsNew(network: ManagedNetwork, clock: Clock, n: Node, url: string, key: string)
    requires network.Sound(clock.now) && n in network.nodes && MadeFor(n, url, key, network.minBackoff)
    ensures Sane(ViewOf(network, clock)) && NewFor(ViewOf(network, clock), n, url, key)
  {
    hide ManagedNetwork.Sound, Sane, ParseAddress;
    SoundView(network, clock);
    StatesGiven(network, clock);
  }

  method StepReplace(network: ManagedNetwork, net: map<string, string>, clock: Clock) returns (h: Happened)
    requires network.Sound(clock.now) && PlainKeys(network.nodes) && PlainAccounts(net)
    modifies network, network.nodes, clock
    ensures network.Sound(clock.now) && PlainKeys(network.nodes) && old(clock.now) <= clock.now && h == Quiet
    ensures forall n :: n in network.nodes ==> n in old(network.nodes) || fresh(n)
    ensures var s, t := old(ViewOf(network, clock)), ViewOf(network, clock);
            Sane(s) && Sane(t) && if Unparsable(net) then Unchanged(s, t)
                                  else NotClosed(s, t, s.nodes) || Renewed(s, t, net)
  {
    hide ManagedNetwork.Sound, ManagedNetwork.Valid, Sane, ParseAddress, Unchanged, NotClosed, Renewed, StatesOf,
         MadeOf;
    SoundView(network, clock);
    StatesGiven(network, clock);
    ghost var s := ViewOf(network, clock);
    ListedIn(s);
    var error := network.SetNetworkByAddress(net, clock);
    h := Quiet;
    if error == Some(BadAddress) {
      SameView(network, clock, s);
    } else if error.Some? {
      assert error.value.CloseFailed?;
      NotClosedView(network, clock, s, s.nodes);
    } else {
      PlainMade(network.nodes, net, network.minBackoff);
      RenewedView(network, clock, s, net);
    }
  }

  method StepExecute(network: ManagedNetwork, e: Event, clock: Clock) returns (h: Happened)
    requires network.Sound(clock.now) && e.Execute?
    modifies network`healthyNodes, network.nodes, clock
    ensures network.Sound(clock.now) && old(clock.now) <= clock.now
    ensures h.Requested? && Sane(old(ViewOf(network, clock))) && Sane(ViewOf(network, clock))
    ensures Served(old(ViewOf(network, clock)), e, ViewOf(network, clock), h.outcome, h.log)
  {
    hide ManagedNetwork.Sound, ManagedNetwork.Valid, Sane, Served, Answered, Decides, LastEnds, AllIn, Truthful,
         InOrder, InTurn, Accounted, Listings, Delisted, NothingToSelect, Turn, Since, Delays, Regenerated, MinAfter,
         StatesOf;
    SoundView(network, clock);
    ghost var s := ViewOf(network, clock);
    var request := new Request(e.ids, e.locked, e.isTransaction, e.mayRegenerate);
    var minBackoff := new Duration(e.minBackoff);
    var outcome, log, delays :=
      Execution.Execute(network, request, |e.replies|, e.replies, e.maxBackoff, minBackoff, clock);
    ServedBy(network, request, clock, s, e, outcome, log);
    h := Requested(outcome, log);
  }

  lemma NoneSelected(network: ManagedNetwork, request: Request, clock: Clock, e: Event, log: seq<Attempt>, since: int)
    requires network.Sound(clock.now) && request.Valid() && NothingToSelect(network, request, since)
    requires e.Execute? && request.locked == e.locked && request.Pinned() == Pinned(e)
    requires Pinned(e) ==> request.nodeAccountIDs == e.ids && request.index == Turn(log, 0, |e.ids|)
    ensures Sane(ViewOf(network, clock)) && NoneSelectable(ViewOf(network, clock), e, log, since)
  {
    hide Turn, NoDuplicates;
  }

  /** The retry loop's contract, of what is seen of the network. */
  lemma ServedBy(network: ManagedNetwork, request: Request, clock: Clock, s: View, e: Event, outcome: Outcome,
                 log: seq<Attempt>)
    requires network.Sound(clock.now) && request.Valid() && e.Execute? && Sane(s)
    requires s.nodes == network.nodes && s.secure == network.transportSecurity && s.min == network.minBackoff
    requires request.locked == e.locked && request.Pinned() == Pinned(e)
    requires request.CanRegenerate() == (e.isTransaction && e.mayRegenerate)
    requires Pinned(e) ==> request.nodeAccountIDs == e.ids && request.index == Turn(log, 0, |e.ids|)
    requires |log| <= |e.replies| && Answered(log, e.replies)
    requires Decides(outcome, log, |e.replies|, request.CanRegenerate())
    requires |log| < |e.replies| && !LastEnds(log, request.CanRegenerate()) ==>
               NothingToSelect(network, request, Since(log, s.now))
    requires AllIn(log, s.nodes) && Truthful(s.states, log) && InOrder(log, s.now, clock.now)
    requires InTurn(Pinned(e), log, e.ids, 0) && Accounted(s.states, log, network.nodes)
    requires Listings(Pinned(e), log, s.healthy) && (Pinned(e) ==> network.healthyNodes == Delisted(s.healthy, log))
    ensures Sane(ViewOf(network, clock)) && Served(s, e, ViewOf(network, clock), outcome, log)
  {
    hide Answered, Decides, LastEnds, AllIn, Truthful, InOrder, InTurn, Listings, Delisted, NothingToSelect,
         NoneSelectable, Turn, Since, ManagedNetwork.Sound, Sane;
    SoundView(network, clock);
    StatesGiven(network, clock);
    if |log| < |e.replies| && !LastEnds(log, request.CanRegenerate()) {
      NoneSelected(network, request, clock, e, log, Since(log, s.now));
    }
  }

  // ---------------------------------------------------------------- runs

  /** Every operation takes the network one step. */
  method Step(network: ManagedNetwork, e: Event, clock: Clock) returns (h: Happened)
    requires network.Sound(clock.now) && PlainKeys(network.nodes) && (e.Replace? ==> PlainAccounts(e.net))
    modifies network, (set n | n in network.nodes), clock
    ensures network.Sound(clock.now) && PlainKeys(network.nodes)
    ensures forall n :: n in network.nodes ==> n in old(network.nodes) || fresh(n)
    ensures Next(old(ViewOf(network, clock)), e, ViewOf(network, clock), h)
  {
    hide ManagedNetwork.Sound, ManagedNetwork.Valid, Sane, Relisted, Unchanged, OneChanged, NotClosed, Copied, Renewed,
         Served, Unparsable, StatesOf;
    ghost var s := ViewOf(network, clock);
    SoundView(network, clock);
    h := Quiet;
    match e {
      case Readmit =>
        h := StepReadmit(network, clock);
      case Pick =>
        h := StepPick(network, clock);
      case Fail(index) =>
        if index < |network.nodes| {
          h := StepFail(network, index, clock);
        } else {
          StandsStill(network, clock);
        }
      case Succeed(index) =>
        if index < |network.nodes| {
          h := StepSucceed(network, index, clock);
        } else {
          StandsStill(network, clock);
        }
      case Secure(secure) =>
        h := StepSecure(network, secure, clock);
      case Replace(net) =>
        h := StepReplace(network, net, clock);
      case Execute(_, _, _, _, _, _, _) =>
        h := StepExecute(network, e, clock);
    }
  }

  lemma StandsStill(network: ManagedNetwork, clock: Clock)
    ensures Unchanged(ViewOf(network, clock), ViewOf(network, clock))
  {
  }

  /** So does every sequence of events, from what is seen before to what is seen after; and no node
      followed through it is ever met before its latest failure's readmission time. */
  method Run(network: ManagedNetwork, events: seq<Event>, clock: Clock)
    returns (happened: seq<Happened>, ghost views: seq<View>)
    requires network.Sound(clock.now) && PlainKeys(network.nodes)
    requires forall e :: e in events && e.Replace? ==> PlainAccounts(e.net)
    modifies network, (set n | n in network.nodes), clock
    ensures network.Sound(clock.now)
    ensures IsRun(views, events, happened)
    ensures views[0] == old(ViewOf(network, clock)) && views[|events|] == ViewOf(network, clock)
    ensures forall i, j, d: seq<Node> ::
              0 <= i <= j < |happened| && Line(views[i..j + 1], events[i..j], d) && d[0] in views[i].states ==>
                HeldOff(happened[j], d[j - i], Or(LatestFailure(happened[i..j], d), views[i].states[d[0]].readmit))
  {
    hide Next, ManagedNetwork.Sound, Sane, HeldOff, LatestFailure;
    happened, views := [], [ViewOf(network, clock)];
    SoundView(network, clock);
    var i := 0;
    while i < |events|
      invariant 0 <= i <= |events| && network.Sound(clock.now) && PlainKeys(network.nodes)
      invariant forall n :: n in network.nodes ==> n in old(network.nodes) || fresh(n)
      invariant IsRun(views, events[..i], happened)
      invariant views[0] == old(ViewOf(network, clock)) && views[i] == ViewOf(network, clock)
    {
      var h := Step(network, events[i], clock);
      RunGrows(views, events[..i], happened, events[i], ViewOf(network, clock), h);
      TakeAppend(events, i);
      happened, views := happened + [h], views + [ViewOf(network, clock)];
      i := i + 1;
    }
    TakeAll(events);
    forall i, j, d: seq<Node> |
      0 <= i <= j < |happened| && Line(views[i..j + 1], events[i..j], d) && d[0] in views[i].states
      ensures HeldOff(happened[j], d[j - i], Or(LatestFailure(happened[i..j], d), views[i].states[d[0]].readmit))
    {
      NeverEarly(views, events, happened, i, j, d);
    }
  }

  lemma RunGrows(views: seq<View>, events: seq<Event>, happened: seq<Happened>, e: Event, t: View, h: Happened)
    requires IsRun(views, events, happened) && Next(views[|events|], e, t, h)
    ensures IsRun(views + [t], events + [e], happened + [h])
  {
    hide Next;
  }

  // ---------------------------------------------------------------- two instances

  /** A failed node is delisted and becomes due; a pinned request finds it so, before it is listed
      again, and its one attempt fails; the other node, which never failed and was listed, loses
      its place. */
  method BystanderDelisted()
    returns (network: ManagedNetwork, clock: Clock, ghost s: View, e: Event, h: Happened, failed: Node, bystander: Node)
    ensures Next(s, e, ViewOf(network, clock), h) && e.Execute? && Pinned(e) && e.ids == [failed.key] && h.Requested?
    ensures |h.log| == 1 && h.log[0].node == failed && DueThen(h.log[0]) && Failed(h.log[0])
    ensures failed !in s.healthy && bystander in s.healthy && bystander !in network.healthyNodes
    ensures bystander in network.nodes && bystander.badGrpcStatusCount == 0 && bystander.HealthyAt(clock.now)
  {
    hide ManagedNetwork.Valid, ManagedNetwork.Sound, Node.HealthyAt, Next, ViewOf, Failed, DueThen;
    clock := new Clock(0);
    network := new ManagedNetwork();
    failed := new Node("0.0.3", NodeAddress("a", 50211), 8_000_000_000, 0);
    bystander := new Node("0.0.4", NodeAddress("b", 50211), 8_000_000_000, 0);
    TwoListed(network, failed, bystander, clock);
    FailFirst(network, failed, bystander, clock);
    s, e, h := FailAgain(network, failed, bystander, clock);
  }

  method FailFirst(network: ManagedNetwork, failed: Node, bystander: Node, clock: Clock)
    requires network.Sound(clock.now) && failed != bystander && failed in network.nodes
    requires forall n :: n in network.healthyNodes <==> n == failed || n == bystander
    modifies network`healthyNodes, clock, failed`badGrpcStatusCount, failed`currentBackoff, failed`readmitTime
    ensures network.Sound(clock.now) && network.healthyNodes == [bystander]
    ensures failed.readmitTime.Some? && failed.readmitTime.value < clock.now
  {
    hide IsIndex, Without, PositionOf, Doubled;
    var _ := network.IncreaseBackoff(failed, clock);
    OnlyLeft(network.healthyNodes, bystander);
    clock.WaitUntil(failed.readmitTime.value + 1);
  }

  lemma NoneLeftOf(only: Node, node: Node)
    requires only != node
    ensures PositionOf([only], node) == 0 && Without([only], 0) == []
  {
  }

  /** A pinned request that finds a delisted node due fails once and leaves nothing listed. */
  lemma OneAttempt(s: View, e: Event, t: View, h: Happened, failed: Node, bystander: Node)
    requires Next(s, e, t, h) && e.Execute? && Pinned(e) && e.ids == [failed.key] && e.replies == [ChannelError]
    requires failed in s.nodes && forall n :: n in s.nodes ==> n == failed || n == bystander
    requires failed.key != bystander.key && s.healthy == [bystander]
    requires failed in s.states && s.states[failed].readmit.Some? && s.states[failed].readmit.value < s.now
    ensures h.Requested? && |h.log| == 1 && h.log[0].node == failed && DueThen(h.log[0]) && Failed(h.log[0])
    ensures t.healthy == []
    ensures bystander in s.states && bystander in t.states && t.states[bystander] == s.states[bystander]
    ensures DueAt(t.states[bystander].readmit, t.now)
  {
    hide Decides, NoDuplicates, PositionOf, Without;
    var log := h.log;
    assert failed in t.nodes;
    assert Turn([], 0, 1) == 0;
    if log == [] {
      assert false;
    }
    assert log[..0] == [] && log[0] in log;
    assert log[0].node in s.nodes;
    assert log[0].node.key == failed.key;
    assert InOrder(log[..0], s.now, log[0].at);
    assert bystander in s.healthy && bystander in s.nodes;
    assert StateAfter(log[..0], bystander, s.states[bystander]) == s.states[bystander];
    NoneLeftOf(bystander, failed);
  }

  method FailAgain(network: ManagedNetwork, failed: Node, bystander: Node, clock: Clock)
    returns (ghost s: View, e: Event, h: Happened)
    requires network.Sound(clock.now) && network.healthyNodes == [bystander] && failed.key != bystander.key
    requires forall n :: n in network.nodes <==> n == failed || n == bystander
    requires failed.readmitTime.Some? && failed.readmitTime.value < clock.now && bystander.badGrpcStatusCount == 0
    modifies network`healthyNodes, (set n | n in network.nodes), clock
    ensures s == old(ViewOf(network, clock)) && s.healthy == [bystander]
    ensures Next(s, e, ViewOf(network, clock), h) && e.Execute? && Pinned(e) && e.ids == [failed.key] && h.Requested?
    ensures |h.log| == 1 && h.log[0].node == failed && DueThen(h.log[0]) && Failed(h.log[0])
    ensures network.healthyNodes == [] && bystander.badGrpcStatusCount == 0 && bystander.HealthyAt(clock.now)
  {
    hide ManagedNetwork.Sound, ManagedNetwork.Valid, StatesOf, Served, DueThen, Failed;
    e := Execute([failed.key], true, true, false, [ChannelError], 0, 0);
    s := ViewOf(network, clock);
    SoundView(network, clock);
    StatesGiven(network, clock);
    h := StepExecute(network, e, clock);
    OneAttempt(s, e, ViewOf(network, clock), h, failed, bystander);
    StatesGiven(network, clock);
  }

  /** A network set to two nodes lists them both. */
  method TwoListed(network: ManagedNetwork, a: Node, b: Node, clock: Clock)
    requires network.Valid() && network.nodes == [] && a.key != b.key
    requires a.readmitTime.None? && b.readmitTime.None?
    modifies network, clock
    ensures old(clock.now) <= clock.now && network.Sound(clock.now)
    ensures forall n :: n in network.nodes <==> n == a || n == b
    ensures forall n :: n in network.healthyNodes <==> n == a || n == b
  {
    hide IsIndex;
    var nodes := map[a.key := a, b.key := b];
    var error := network.SetNetwork(nodes, clock);
    hide Replaces;
    ReplacesAll(network.nodes, [], nodes);
    assert nodes[a.key] in network.nodes && nodes[b.key] in network.nodes;
  }

  lemma OnlyLeft(nodes: seq<Node>, node: Node)
    requires forall i, j :: 0 <= i < j < |nodes| ==> nodes[i] != nodes[j]
    requires forall n :: n in nodes <==> n == node
    ensures nodes == [node]
  {
    assert node in nodes;
    OnlyPosition(nodes, node, 0, |nodes| - 1);
  }

  lemma OnlyPosition(nodes: seq<Node>, node: Node, i: nat, j: nat)
    requires forall i, j :: 0 <= i < j < |nodes| ==> nodes[i] != nodes[j]
    requires forall n :: n in nodes ==> n == node
    requires i < |nodes| && j < |nodes|
    ensures i == j
  {
    assert nodes[i] in nodes && nodes[j] in nodes;
  }

  /** After a change of transport security a failure keeps no node out: it is due the moment
      after. */
  method FailAfterSecure(network: ManagedNetwork, index: nat, clock: Clock) returns (node: Option<Node>)
    requires network.Sound(clock.now) && !network.transportSecurity && index < |network.nodes|
    requires network.nodes[index].BackoffInRange()
    modifies network, (set n | n in network.nodes), clock
    ensures network.Sound(clock.now)
    // Without an open channel the change succeeds.
    ensures (forall n :: n in old(network.healthyNodes) ==> !old(n.channelOpen)) ==> node.Some?
    ensures node.Some? ==>
              && node.value in network.nodes && node.value.key == old(network.nodes[index]).key
              && node.value.readmitTime == Some(clock.now) && forall t :: clock.now < t ==> node.value.HealthyAt(t)
  {
    hide IsIndex;
    var error := network.SetTransportSecurity(true, clock);
    if error.Some? {
      return None;
    }
    ghost var copy := network.nodes[index];
    var _ := network.IncreaseBackoff(network.nodes[index], clock);
    node := Some(network.nodes[index]);
  }

  /** A node of a network just set stays out for at least the network's minimum after its first
      failure: for twice the minimum, but no more than an hour. */
  method FailAfterReplace(network: ManagedNetwork, net: map<string, string>, index: nat, clock: Clock)
    returns (node: Option<Node>)
    requires network.Valid() && PlainKeys(network.nodes) && PlainAccounts(net)
    requires 0 < network.minBackoff <= 3_600_000_000_000
    modifies network, (set n | n in network.nodes), clock
    ensures network.Valid() && network.minBackoff == old(network.minBackoff)
    // Without an open channel the nodes are replaced when every address parses.
    ensures !Unparsable(net) && (forall n :: n in old(network.nodes) ==> !old(n.channelOpen)) ==>
              (node.Some? <==> index < |network.nodes|)
    ensures node.Some? ==>
              && index < |network.nodes| && node.value == network.nodes[index] && node.value.badGrpcStatusCount == 1
              && node.value.readmitTime == Some(clock.now + (if network.minBackoff <= 1_800_000_000_000
                                                             then 2 * network.minBackoff else 3_600_000_000_000))
              && forall t :: t <= clock.now + network.minBackoff ==> !node.value.HealthyAt(t)
  {
    hide IsIndex, ParseAddress, NodesMade, AddressesMade, Doubled, Without, PositionOf;
    DoubledOnce(network.minBackoff);
    var error := network.SetNetworkByAddress(net, clock);
    if error.Some? {
      assert error.value.BadAddress? || error.value.CloseFailed?;
      return None;
    }
    if index >= |network.nodes| {
      return None;
    }
    ghost var url := MadeUrl(network.nodes, net, network.minBackoff, network.nodes[index]);
    var _ := network.IncreaseBackoff(network.nodes[index], clock);
    node := Some(network.nodes[index]);
  }
}
