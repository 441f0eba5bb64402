/** What can happen to a network, as a relation between what can be seen of it before and after:
    whole requests, single picks, failures and successes, replacements of the node list, changes
    of transport security, and time passing in between. */
module NetworkViews {
  import opened Wrappers
  import opened Sequences
  import opened ManagedNodes
  import opened ManagedNetworks
  import opened Execution

  datatype Event =
    | Readmit
    | Pick
    | Fail(index: nat)
    | Succeed(index: nat)
    | Secure(secure: bool)
    | Replace(net: map<string, string>)
    | Execute(ids: seq<string>, locked: bool, isTransaction: bool, mayRegenerate: bool,
              replies: seq<Reply>, minBackoff: int, maxBackoff: int)

  /** What an event comes to: a node drawn, or none; a failure, with the readmission time it sets; a
      request's outcome and its attempts. */
  datatype Happened =
    | Quiet
    | Drawn(node: Option<Node>, at: int)
    | FailedUntil(failed: Node, until: int)
    | Requested(outcome: Outcome, log: seq<Attempt>)

  datatype View = View(now: int, nodes: seq<Node>, healthy: seq<Node>, states: map<Node, NodeState>, secure: bool,
                       min: int)

  ghost function ViewOf(network: ManagedNetwork, clock: Clock): View
    reads network, network.nodes, clock
  {
    View(clock.now, network.nodes, network.healthyNodes, StatesOf(network.nodes), network.transportSecurity,
         network.minBackoff)
  }

  predicate DueAt(readmit: Option<int>, now: int)
  {
    readmit.None? || readmit.value < now
  }

  /** The lists hold no node twice, the states are those of the nodes, and all that is listed as
      healthy is due. */
  ghost predicate Sane(s: View)
  {
    && NoDuplicates(s.nodes) && NoDuplicates(s.healthy)
    && (forall n :: n in s.nodes ==> n in s.states) && (forall n :: n in s.states ==> n in s.nodes)
    && (forall n :: n in s.healthy ==> n in s.nodes)
    && (forall n :: n in s.healthy ==> DueAt(s.states[n].readmit, s.now))
  }

  ghost predicate Unchanged(s: View, t: View)
  {
    t == s.(now := t.now)
  }

  /** Everything that is due is listed. */
  ghost predicate DueListed(t: View, now: int)
    requires Sane(t)
  {
    forall n :: n in t.nodes && DueAt(t.states[n].readmit, now) ==> n in t.healthy
  }

  ghost predicate Relisted(s: View, t: View)
    requires Sane(t)
  {
    t == s.(now := t.now, healthy := t.healthy) && s.healthy <= t.healthy && DueListed(t, s.now)
  }

  /** One node is in a new state. */
  ghost predicate OneChanged(s: View, t: View, node: Node, state: NodeState, healthy: seq<Node>)
    requires Sane(s) && Sane(t)
  {
    && t == s.(now := t.now, states := t.states, healthy := healthy)
    && forall n :: n in t.nodes ==> t.states[n] == if n == node then state else s.states[n]
  }

  /** An operation that failed to close an open channel, having closed others. */
  ghost predicate NotClosed(s: View, t: View, tried: seq<Node>)
    requires Sane(s) && Sane(t)
  {
    && t == s.(now := t.now, states := t.states)
    && (exists n :: n in tried && n in s.states && s.states[n].open)
    && forall n :: n in t.nodes ==>
                     t.states[n] == s.states[n].(open := t.states[n].open) && (t.states[n].open ==> s.states[n].open)
  }

  /** Every node is replaced, at its place, by a copy on the other port that has lost its maximum
      backoff; listed ones have lost their channel. */
  ghost predicate Copied(s: View, t: View, secure: bool)
    requires Sane(s) && Sane(t)
  {
    && t.secure == secure && t.min == s.min && |t.nodes| == |s.nodes| && DueListed(t, s.now)
    && forall i :: 0 <= i < |s.nodes| ==>
                     && t.nodes[i] !in s.nodes && t.nodes[i].key == s.nodes[i].key
                     && t.nodes[i].address
                        == (if secure then s.nodes[i].address.ToSecure() else s.nodes[i].address.ToInsecure())
                     && t.states[t.nodes[i]] == CopiedState(s.states[s.nodes[i]], s.nodes[i] in s.healthy)
  }

  function CopiedState(s: NodeState, listed: bool): NodeState
  {
    s.(max := 0, open := s.open && !listed)
  }

  /** An unused node for an address, with the network's minimum as its backoff. */
  ghost predicate NewFor(t: View, n: Node, url: string, key: string)
    requires Sane(t) && n in t.nodes
  {
    && ParseAddress(url) == Some(n.address) && n.key == key
    && t.states[n].readmit == None && t.states[n].uses == 0 && t.states[n].failures == 0
    && t.states[n].min == t.min && t.states[n].backoff == t.min && t.states[n].max == 3_600_000_000_000
  }

  /** The nodes are new ones for the addresses, all of them listed; none is kept. */
  ghost predicate Renewed(s: View, t: View, net: map<string, string>)
    requires Sane(t)
  {
    && t.secure == s.secure && t.min == s.min
    && (forall n :: n in t.nodes ==>
          n !in s.nodes && n in t.healthy && exists url :: url in net && NewFor(t, n, url, net[url]))
    && (forall url :: url in net ==> exists n :: n in t.nodes && NewFor(t, n, url, net[url]))
  }

  predicate Unparsable(net: map<string, string>)
  {
    exists url :: url in net && ParseAddress(url).None?
  }

  predicate Pinned(e: Event)
    requires e.Execute?
  {
    e.locked && e.ids != []
  }

  /** Why a request could select no node. */
  ghost predicate NoneSelectable(t: View, e: Event, log: seq<Attempt>, since: int)
    requires e.Execute? && Sane(t)
  {
    if Pinned(e) then forall n :: n in t.nodes ==> n.key != e.ids[Turn(log, 0, |e.ids|)]
    else e.locked || (t.healthy == [] && forall n :: n in t.nodes ==> !DueAt(t.states[n].readmit, since))
  }

  /** A request's attempts, whose verdict they are, and what they have made of the nodes. */
  ghost predicate Served(s: View, e: Event, t: View, outcome: Outcome, log: seq<Attempt>)
    requires e.Execute? && Sane(s) && Sane(t)
  {
    var can := e.isTransaction && e.mayRegenerate;
    && t.nodes == s.nodes && t.secure == s.secure && t.min == s.min
    && |log| <= |e.replies| && Answered(log, e.replies) && Decides(outcome, log, |e.replies|, can)
    && (|log| < |e.replies| && !LastEnds(log, can) ==> NoneSelectable(t, e, log, Since(log, s.now)))
    && AllIn(log, s.nodes) && Truthful(s.states, log) && InOrder(log, s.now, t.now) && InTurn(Pinned(e), log, e.ids, 0)
    && (forall n :: n in t.nodes ==> t.states[n] == StateAfter(log, n, s.states[n]))
    && Listings(Pinned(e), log, s.healthy) && (Pinned(e) ==> t.healthy == Delisted(s.healthy, log))
  }

  /** The healthy list after a failure of one node. */
  ghost function WithoutFailed(healthy: seq<Node>, node: Node): seq<Node>
  {
    if healthy == [] then [] else Without(healthy, PositionOf(healthy, node))
  }

  /** One event takes what is seen of a network from `s` to `t`. */
  ghost predicate Next(s: View, e: Event, t: View, h: Happened)
  {
    Sane(s) && Sane(t) && s.now <= t.now &&
    match e {
      case Readmit => h == Quiet && Relisted(s, t)
      case Pick =>
        && h.Drawn? && h.at == t.now && Relisted(s, t)
        && (h.node.None? <==> t.healthy == []) && (h.node.Some? ==> h.node.value in t.healthy)
      case Fail(i) =>
        if i < |s.nodes| then
          var n := s.nodes[i];
          var state := FailedState(s.states[n], t.now);
          OneChanged(s, t, n, state, WithoutFailed(s.healthy, n)) && h == FailedUntil(n, state.readmit.value)
        else Unchanged(s, t) && h == Quiet
      case Succeed(i) =>
        h == Quiet && if i < |s.nodes| then OneChanged(s, t, s.nodes[i], EasedState(s.states[s.nodes[i]]), s.healthy)
                      else Unchanged(s, t)
      case Secure(secure) =>
        h == Quiet && if secure == s.secure then Unchanged(s, t)
                      else NotClosed(s, t, s.healthy) || Copied(s, t, secure)
      case Replace(net) =>
        h == Quiet && if Unparsable(net) then Unchanged(s, t)
                      else NotClosed(s, t, s.nodes) || Renewed(s, t, net)
      case Execute(_, _, _, _, _, _, _) => h.Requested? && Served(s, e, t, h.outcome, h.log)
    }
  }

  /** A run: what was seen between events, and what each came to. */
  ghost predicate IsRun(views: seq<View>, events: seq<Event>, happened: seq<Happened>)
  {
    && |views| == |events| + 1 == |happened| + 1 && Sane(views[0])
    && forall i :: 0 <= i < |events| ==> Next(views[i], events[i], views[i + 1], happened[i])
  }
}
