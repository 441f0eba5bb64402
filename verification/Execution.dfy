/** The retry loop every request runs through. The environment's replies are an input, one for
    each attempt; the clock may advance at every reading; an unlocked request draws any healthy
    node. */
module Execution {
  import opened Wrappers
  import opened Numerals
  import opened Sequences
  import opened ManagedNodes
  import opened ManagedNetworks

  datatype ExecutionState = Retry | Finished | Error | Expired

  /** What happens when a node is asked: no channel, a gRPC error, or a classified response. */
  datatype Reply =
    | ChannelError
    | GrpcRetryable(code: int)
    | GrpcFatal(code: int)
    | Response(payload: int, state: ExecutionState)

  datatype ExecError = GenericError | GrpcError(code: int) | StatusError(payload: int)

  datatype Outcome =
    | Done(payload: int, key: string)
    | StatusFailure(payload: int)
    | GaveUp(error: ExecError, attempt: int)
    | Panicked

  /** One turn of the loop that selected a node: when its health was looked at, its readmission
      time then, how many nodes were listed as healthy, the reply, when the turn was over, and the
      readmission time after. Without a reply the node was found unhealthy. */
  datatype Attempt = Attempt(node: Node, at: int, was: Option<int>, listed: nat, reply: Option<Reply>,
                             done: int, readmit: Option<int>)

  predicate DueThen(a: Attempt)
  {
    a.was.None? || a.was.value < a.at
  }

  predicate Failed(a: Attempt)
  {
    a.reply.Some? && (a.reply.value.ChannelError? || a.reply.value.GrpcRetryable?)
  }

  /** Does this attempt end the loop? An expired transaction may get a new ID instead. */
  predicate Final(a: Attempt, canRegenerate: bool)
  {
    a.reply.Some? && match a.reply.value
                     case ChannelError => false
                     case GrpcRetryable(_) => false
                     case GrpcFatal(_) => true
                     case Response(_, state) => state.Finished? || state.Error? || (state.Expired? && !canRegenerate)
  }

  /** Delisting a failed node panics when nothing is listed. */
  predicate Crashing(a: Attempt)
  {
    Failed(a) && a.listed == 0
  }

  predicate Ends(a: Attempt, canRegenerate: bool)
  {
    Final(a, canRegenerate) || Crashing(a)
  }

  /** What the loop returns after an attempt that ends it. */
  function Verdict(a: Attempt, attempt: int): Outcome
  {
    if a.reply.None? || Crashing(a) then Panicked
    else match a.reply.value
         case GrpcFatal(code) => GaveUp(GrpcError(code), attempt)
         case Response(payload, Finished) => Done(payload, a.node.key)
         case Response(payload, _) => StatusFailure(payload)
         case _ => Panicked
  }

  /** The error kept for the end: the latest retried gRPC error or retried status. */
  function NextError(error: ExecError, a: Attempt): ExecError
  {
    match a.reply
    case Some(GrpcRetryable(code)) => GrpcError(code)
    case Some(Response(payload, Retry)) => StatusError(payload)
    case _ => error
  }

  function LastError(log: seq<Attempt>): ExecError
  {
    if log == [] then GenericError else NextError(LastError(log[..|log| - 1]), log[|log| - 1])
  }

  /** What requests change of a node, and the bounds its backoff keeps to. */
  datatype NodeState = NodeState(uses: int, failures: int, readmit: Option<int>, backoff: int, min: int, max: int,
                                 open: bool)

  function StateOf(node: Node): NodeState
    reads node
  {
    NodeState(node.useCount, node.badGrpcStatusCount, node.readmitTime,
              node.currentBackoff, node.minBackoff, node.maxBackoff, node.channelOpen)
  }

  /** A failure over by `done` counts, doubles the backoff and readmits the node that much later. */
  function FailedState(s: NodeState, done: int): NodeState
  {
    var backoff := Doubled(s.backoff, s.max);
    s.(failures := s.failures + 1, readmit := Some(done + backoff), backoff := backoff)
  }

  function EasedState(s: NodeState): NodeState
  {
    s.(backoff := Halved(s.backoff, s.min))
  }

  /** An attempt is a use; a node reached over a channel keeps it open; a failure sets the node
      back, a response eases its backoff. */
  function NextState(a: Attempt, s: NodeState): NodeState
  {
    var used := s.(uses := s.uses + 1, open := s.open || (a.reply.Some? && !a.reply.value.ChannelError?));
    if Failed(a) then FailedState(used, a.done)
    else if a.reply.Some? && a.reply.value.Response? then EasedState(used)
    else used
  }

  ghost function StateAfter(log: seq<Attempt>, node: Node, s: NodeState): NodeState
  {
    if log == [] then s
    else
      var n := |log| - 1;
      var before := StateAfter(log[..n], node, s);
      if log[n].node == node then NextState(log[n], before) else before
  }

  /** Attempts that reached a node. */
  function Calls(log: seq<Attempt>): nat
  {
    if log == [] then 0 else Calls(log[..|log| - 1]) + if log[|log| - 1].reply.Some? then 1 else 0
  }

  /** No node is called again before its latest failure's readmission time. */
  ghost predicate Respected(log: seq<Attempt>)
  {
    forall i, j :: 0 <= i < j < |log| && log[i].node == log[j].node && Failed(log[i]) && log[j].reply.Some?
                   ==> log[i].readmit.Some? && log[i].readmit.value < log[j].at
  }

  /** A duration the caller and the loop share through a pointer. */
  class Duration {
    var value: int

    constructor (value: int)
      ensures this.value == value
    {
      this.value := value;
    }
  }

  class Request {
    var nodeAccountIDs: seq<string>
    var locked: bool
    var index: nat
    var regenerations: nat
    const isTransaction: bool
    const mayRegenerate: bool

    constructor (ids: seq<string>, locked: bool, isTransaction: bool, mayRegenerate: bool)
      ensures nodeAccountIDs == ids && this.locked == locked && index == 0 && regenerations == 0
      ensures this.isTransaction == isTransaction && this.mayRegenerate == mayRegenerate
    {
      nodeAccountIDs := ids;
      this.locked := locked;
      index := 0;
      regenerations := 0;
      this.isTransaction := isTransaction;
      this.mayRegenerate := mayRegenerate;
    }

    predicate CanRegenerate() {
      isTransaction && mayRegenerate
    }

    predicate Pinned()
      reads this
    {
      locked && |nodeAccountIDs| > 0
    }

    ghost predicate Valid()
      reads this
    {
      index == 0 || index < |nodeAccountIDs|
    }

    method Advance()
      requires Valid()
      modifies this`index
      ensures Valid()
      ensures index == if nodeAccountIDs == [] then old(index) else (old(index) + 1) % |nodeAccountIDs|
    {
      if |nodeAccountIDs| != 0 {
        index := (index + 1) % |nodeAccountIDs|;
      }
    }
  }

  /** Whole milliseconds of a duration, truncated toward zero. */
  function Millis(d: int): int
  {
    if d >= 0 then d / 1_000_000 else -(-d / 1_000_000)
  }

  /** Milliseconds slept before the next attempt: the minimum doubled once an attempt, capped. */
  function DelayForAttempt(minBackoff: int, maxBackoff: int, attempt: nat): int
  {
    var ms := Scaled(Millis(minBackoff), attempt);
    if ms <= Millis(maxBackoff) then ms else Millis(maxBackoff)
  }

  /** The shared minimum after `k` attempts: the loop doubles it through an alias. */
  function MinAfter(minBackoff: int, k: nat): int
  {
    if k == 0 then minBackoff else Wrap64(MinAfter(minBackoff, k - 1) * 2)
  }

  /** An unhealthy node and a retried status are slept over. */
  function NextDelay(a: Attempt, minBackoff: int, maxBackoff: int, attempt: nat): seq<int>
  {
    if a.reply.None? || (a.reply.value.Response? && a.reply.value.state.Retry?)
    then [DelayForAttempt(minBackoff, maxBackoff, attempt)] else []
  }

  function Delays(log: seq<Attempt>, minBackoff: int, maxBackoff: int): seq<int>
  {
    if log == [] then []
    else
      var n := |log| - 1;
      Delays(log[..n], minBackoff, maxBackoff) + NextDelay(log[n], MinAfter(minBackoff, n), maxBackoff, n)
  }

  /** New transaction IDs made for expired ones. */
  function NextRegenerations(a: Attempt, canRegenerate: bool): nat
  {
    if canRegenerate && a.reply.Some? && a.reply.value.Response? && a.reply.value.state.Expired? then 1 else 0
  }

  function Regenerated(log: seq<Attempt>, canRegenerate: bool): nat
  {
    if log == [] then 0
    else Regenerated(log[..|log| - 1], canRegenerate) + NextRegenerations(log[|log| - 1], canRegenerate)
  }

  /** The place in a list of `count` accounts a request has reached, having begun at `start`. */
  function Turn(log: seq<Attempt>, start: nat, count: nat): (i: nat)
    requires count > 0
    ensures i < count
  {
    (start + Calls(log)) % count
  }

  /** A pinned request calls its accounts in turn, moving on only when a node was reached. */
  predicate RoundRobin(log: seq<Attempt>, ids: seq<string>, start: nat)
    requires ids != []
  {
    log == [] ||
    var n := |log| - 1;
    RoundRobin(log[..n], ids, start) && log[n].node.key == ids[Turn(log[..n], start, |ids|)]
  }

  /** The position in a request's account list after a turn that reached a node or did not. */
  function After(index: nat, reached: bool, count: nat): nat
  {
    if reached && count > 0 then (index + 1) % count else index
  }

  /** Failed attempts. */
  function FailedAttempts(log: seq<Attempt>): nat
  {
    if log == [] then 0 else FailedAttempts(log[..|log| - 1]) + if Failed(log[|log| - 1]) then 1 else 0
  }

  /** The healthy list after an attempt: a failure takes the failed node's place, or the first. */
  ghost function DelistedBy(healthy: seq<Node>, a: Attempt): seq<Node>
  {
    if Failed(a) && healthy != [] then Without(healthy, PositionOf(healthy, a.node)) else healthy
  }

  /** The healthy list after all the attempts, when nothing is listed again in between. */
  ghost function Delisted(healthy: seq<Node>, log: seq<Attempt>): seq<Node>
  {
    if log == [] then healthy else DelistedBy(Delisted(healthy, log[..|log| - 1]), log[|log| - 1])
  }

  lemma {:induction false} DelistedLength(healthy: seq<Node>, log: seq<Attempt>)
    ensures |Delisted(healthy, log)| == if FailedAttempts(log) <= |healthy| then |healthy| - FailedAttempts(log) else 0
  {
    if log != [] {
      DelistedLength(healthy, log[..|log| - 1]);
    }
  }

  /** How many nodes each attempt found listed: a pinned request lists none again, so it is what
      the failures before have left; any other was selected from the list. */
  ghost predicate Listings(pinned: bool, log: seq<Attempt>, healthy: seq<Node>)
  {
    forall i :: 0 <= i < |log| ==>
                  if pinned then log[i].listed == |Delisted(healthy, log[..i])| else log[i].listed > 0
  }

  /** The time the turn after the logged ones began, at the earliest. */
  function Since(log: seq<Attempt>, start: int): int
  {
    if log == [] then start else log[|log| - 1].done
  }

  /** The turns follow one another in time, between the start of the loop and now. */
  predicate InOrder(log: seq<Attempt>, start: int, now: int)
  {
    && Since(log, start) <= now
    && (log == [] || (var n := |log| - 1; log[n].at <= log[n].done && InOrder(log[..n], start, log[n].at)))
  }

  // ---------------------------------------------------------------- one attempt

  /** A pinned request takes the node of its current account; otherwise any healthy node is
      drawn and recorded as the request's first account. Nothing is selected, and `_Execute`
      panics, for an account that is not listed, for an empty locked account list, or when no
      node is due. */
  method SelectNode(network: ManagedNetwork, request: Request, clock: Clock) returns (r: Option<Node>)
    requires network.Sound(clock.now) && request.Valid()
    modifies network`healthyNodes, request`nodeAccountIDs, clock
    ensures old(clock.now) <= clock.now && network.Sound(clock.now) && request.Valid()
    ensures request.Pinned() == old(request.Pinned())
    ensures old(request.Pinned()) ==>
              request.nodeAccountIDs == old(request.nodeAccountIDs) && network.healthyNodes == old(network.healthyNodes)
    ensures r.Some? ==> r.value in network.nodes
    ensures r.Some? && request.Pinned() ==> r.value.key == request.nodeAccountIDs[request.index]
    ensures r.Some? && !request.Pinned() ==>
              && r.value in network.healthyNodes && r.value.HealthyAt(clock.now)
              && request.nodeAccountIDs == if old(request.nodeAccountIDs) == [] then [r.value.key]
                                           else old(request.nodeAccountIDs)[0 := r.value.key]
    ensures r.None? <==> if request.Pinned() then request.nodeAccountIDs[request.index] !in network.network
                         else request.locked || network.healthyNodes == []
    ensures r.None? && !request.Pinned() ==>
              request.locked || forall n :: n in network.nodes ==> !n.HealthyAt(old(clock.now))
    ensures r.None? ==> request.nodeAccountIDs == old(request.nodeAccountIDs)
  {
    if request.locked && |request.nodeAccountIDs| > 0 {
      var id := request.nodeAccountIDs[request.index];
      if id !in network.network {
        return None;
      }
      var node := network.GetNodeForAccountID(id);
      return Some(node);
    }
    r := network.GetNode(clock);
    if r.Some? {
      if request.locked {
        return None;
      }
      if |request.nodeAccountIDs| == 0 {
        request.nodeAccountIDs := [r.value.key];
      } else {
        request.nodeAccountIDs := request.nodeAccountIDs[0 := r.value.key];
      }
    }
  }

  /** Uses the node: an unhealthy one is not called, a failure delists it, a response eases its
      backoff. `crashed` is the panic of delisting from an empty list. */
  method AskNode(network: ManagedNetwork, request: Request, node: Node, reply: Reply, clock: Clock)
    returns (a: Attempt, crashed: bool)
    requires network.Sound(clock.now) && request.Valid() && node in network.nodes
    modifies network`healthyNodes, request`index, node, clock
    ensures old(clock.now) <= a.at <= clock.now && network.Sound(clock.now) && request.Valid()
    ensures a.node == node
    ensures a.reply.Some? <==> old(node.readmitTime).None? || old(node.readmitTime).value < a.at
    ensures a.reply.Some? ==> a.reply == Some(reply)
    ensures a.was == old(node.readmitTime) && a.listed == |old(network.healthyNodes)|
    ensures a.done == clock.now && a.readmit == node.readmitTime
    ensures StateOf(node) == NextState(a, old(StateOf(node)))
    ensures crashed <==> Crashing(a)
    ensures network.healthyNodes == DelistedBy(old(network.healthyNodes), a)
    ensures request.index == After(old(request.index), a.reply.Some?, |request.nodeAccountIDs|)
  {
    hide ManagedNetwork.Valid, Without, PositionOf, Doubled, Halved;
    var was, listed := node.readmitTime, |network.healthyNodes|;
    crashed := false;
    node.InUse(clock);
    var healthy := node.IsHealthy(clock);
    var at := clock.now;
    if !healthy {
      return Attempt(node, at, was, listed, None, at, node.readmitTime), false;
    }
    request.Advance();
    if !reply.ChannelError? {
      node.channelOpen := true;
    }
    if reply.ChannelError? || reply.GrpcRetryable? {
      var ok := network.IncreaseBackoff(node, clock);
      crashed := !ok;
    } else if reply.Response? {
      node.DecreaseBackoff();
    }
    a := Attempt(node, at, was, listed, Some(reply), clock.now, node.readmitTime);
  }

  // ---------------------------------------------------------------- the loop

  lemma Appended(log: seq<Attempt>, a: Attempt)
    ensures Calls(log + [a]) == Calls(log) + if a.reply.Some? then 1 else 0
    ensures LastError(log + [a]) == NextError(LastError(log), a)
    ensures forall min, max ::
              Delays(log + [a], min, max) == Delays(log, min, max) + NextDelay(a, MinAfter(min, |log|), max, |log|)
    ensures forall c :: Regenerated(log + [a], c) == Regenerated(log, c) + NextRegenerations(a, c)
  {
    assert (log + [a])[..|log + [a]| - 1] == log;
  }

  ghost predicate AllIn(log: seq<Attempt>, nodes: seq<Node>)
  {
    forall i :: 0 <= i < |log| ==> log[i].node in nodes
  }

  /** What the attempts so far and the nodes' present state have to do with each other: the
      latest failure of a node is either still its readmission time or already past. */
  ghost predicate Heeded(log: seq<Attempt>, nodes: seq<Node>, now: int)
    reads nodes
  {
    && (forall i :: 0 <= i < |log| ==> log[i].node in nodes && log[i].at <= now)
    && (forall i :: 0 <= i < |log| && Failed(log[i]) ==>
          log[i].readmit.Some? && (log[i].readmit.value < now || log[i].node.readmitTime == log[i].readmit))
    && Respected(log)
  }

  ghost predicate Answered(log: seq<Attempt>, replies: seq<Reply>)
    requires |log| <= |replies|
  {
    forall i :: 0 <= i < |log| && log[i].reply.Some? ==> log[i].reply.value == replies[i]
  }

  ghost predicate NoneEnds(log: seq<Attempt>, canRegenerate: bool)
  {
    forall i :: 0 <= i < |log| ==> !Ends(log[i], canRegenerate)
  }

  /** Every node is in the state its own attempts, and nothing else, have brought it to. */
  ghost predicate Accounted(start: map<Node, NodeState>, log: seq<Attempt>, nodes: seq<Node>)
    reads nodes
  {
    forall n :: n in nodes ==> n in start && StateOf(n) == StateAfter(log, n, start[n])
  }

  ghost function StatesOf(nodes: seq<Node>): map<Node, NodeState>
    reads nodes
  {
    map n | n in nodes :: StateOf(n)
  }

  /** Each attempt met its node in the state the attempts before had left it in, and reached it
      exactly when it was due. */
  ghost predicate Truthful(start: map<Node, NodeState>, log: seq<Attempt>)
  {
    log == [] ||
    var n := |log| - 1;
    && Truthful(start, log[..n]) && log[n].node in start
    && log[n].was == StateAfter(log[..n], log[n].node, start[log[n].node]).readmit
    && log[n].readmit == StateAfter(log, log[n].node, start[log[n].node]).readmit
    && (log[n].reply.Some? <==> DueThen(log[n]))
  }

  /** What holds between the attempts so far and the nodes they met. */
  ghost predicate Met(start: map<Node, NodeState>, log: seq<Attempt>, nodes: seq<Node>, now: int)
    reads nodes
  {
    Heeded(log, nodes, now) && Accounted(start, log, nodes) && Truthful(start, log)
  }

  lemma MetGives(start: map<Node, NodeState>, log: seq<Attempt>, nodes: seq<Node>, now: int)
    requires Met(start, log, nodes, now)
    ensures AllIn(log, nodes) && Accounted(start, log, nodes) && Truthful(start, log) && Respected(log)
  {
  }

  lemma NothingLogged(nodes: seq<Node>, now: int)
    ensures Met(StatesOf(nodes), [], nodes, now)
  {
  }

  lemma HeededLater(log: seq<Attempt>, nodes: seq<Node>, now: int, later: int)
    requires Heeded(log, nodes, now) && now <= later
    ensures Heeded(log, nodes, later)
  {
  }

  /** What a new attempt leaves of the earlier ones: a node that answered was due, so its earlier
      failures are past. */
  ghost predicate Carried(log: seq<Attempt>, a: Attempt, nodes: seq<Node>)
    reads nodes
  {
    forall i :: 0 <= i < |log| ==>
      && log[i].node in nodes && log[i].at <= a.at
      && (Failed(log[i]) ==>
            && log[i].readmit.Some?
            && (log[i].readmit.value < a.at ||
                (log[i].node.readmitTime == log[i].readmit && (log[i].node == a.node ==> a.reply.None?))))
  }

  lemma HeededNext(log: seq<Attempt>, a: Attempt, nodes: seq<Node>, now: int)
    requires Respected(log) && Carried(log, a, nodes) && a.at <= now
    requires a.node in nodes && a.readmit == a.node.readmitTime
    requires Failed(a) ==> a.readmit.Some?
    ensures Heeded(log + [a], nodes, now) && Respected(log + [a]) && AllIn(log + [a], nodes)
  {
    var all := log + [a];
    forall i | 0 <= i < |all| && Failed(all[i])
      ensures all[i].readmit.Some?
      ensures all[i].readmit.value < now || all[i].node.readmitTime == all[i].readmit
    {
      if i < |log| {
        assert all[i] == log[i];
      }
    }
    RespectedNext(log, a);
  }

  lemma RespectedNext(log: seq<Attempt>, a: Attempt)
    requires Respected(log)
    requires forall i :: 0 <= i < |log| && Failed(log[i]) && log[i].node == a.node && a.reply.Some? ==>
               log[i].readmit.Some? && log[i].readmit.value < a.at
    ensures Respected(log + [a])
  {
    var all := log + [a];
    forall i, j | 0 <= i < j < |all| && all[i].node == all[j].node && Failed(all[i]) && all[j].reply.Some?
      ensures all[i].readmit.Some? && all[i].readmit.value < all[j].at
    {
      assert all[i] == log[i];
      if j < |log| {
        assert all[j] == log[j];
      }
    }
  }

  lemma AccountedNext(start: map<Node, NodeState>, log: seq<Attempt>, a: Attempt, nodes: seq<Node>)
    requires a.node in nodes
    requires forall n :: n in nodes ==>
               && n in start
               && StateOf(n) == if n == a.node then NextState(a, StateAfter(log, n, start[n]))
                                else StateAfter(log, n, start[n])
    ensures Accounted(start, log + [a], nodes)
  {
    assert (log + [a])[..|log + [a]| - 1] == log;
  }

  lemma TruthfulNext(start: map<Node, NodeState>, log: seq<Attempt>, a: Attempt)
    requires Truthful(start, log) && a.node in start
    requires a.was == StateAfter(log, a.node, start[a.node]).readmit && (a.reply.Some? <==> DueThen(a))
    requires a.readmit == NextState(a, StateAfter(log, a.node, start[a.node])).readmit
    ensures Truthful(start, log + [a])
  {
    assert (log + [a])[..|log + [a]| - 1] == log;
  }

  /** Asking a node keeps what was true of the attempts before. */
  method AskAndLog(network: ManagedNetwork, request: Request, ghost start: map<Node, NodeState>,
                   ghost log: seq<Attempt>,
                   node: Node, reply: Reply, clock: Clock)
    returns (a: Attempt, crashed: bool)
    requires network.Sound(clock.now) && request.Valid() && node in network.nodes
    requires Heeded(log, network.nodes, clock.now) && Accounted(start, log, network.nodes) && Truthful(start, log)
    modifies network`healthyNodes, request`index, node, clock
    ensures old(clock.now) <= a.at <= clock.now && network.Sound(clock.now) && request.Valid()
    ensures Heeded(log + [a], network.nodes, clock.now) && Respected(log + [a]) && AllIn(log + [a], network.nodes)
    ensures Accounted(start, log + [a], network.nodes) && Truthful(start, log + [a])
    ensures a.done == clock.now && a.listed == |old(network.healthyNodes)|
    ensures network.healthyNodes == DelistedBy(old(network.healthyNodes), a)
    ensures a.node == node && (a.reply.Some? ==> a.reply == Some(reply))
    ensures a.reply.Some? <==> old(node.readmitTime).None? || old(node.readmitTime).value < a.at
    ensures request.index == After(old(request.index), a.reply.Some?, |request.nodeAccountIDs|)
    ensures crashed <==> Crashing(a)
  {
    hide Respected, AllIn, ManagedNetwork.Sound, StateAfter, Truthful, Doubled, Halved, DelistedBy;
    a, crashed := AskNode(network, request, node, reply, clock);
    HeededNext(log, a, network.nodes, clock.now);
    AccountedNext(start, log, a, network.nodes);
    TruthfulNext(start, log, a);
  }

  /** Why nothing was selected: a pinned request's current account is not listed; an unpinned one
      is locked; or no node is listed and none had become due by the time the turn began. */
  ghost predicate NothingToSelect(network: ManagedNetwork, request: Request, now: int)
    requires request.Valid()
    reads network, request, network.nodes
  {
    if request.Pinned() then request.nodeAccountIDs[request.index] !in network.network
    else request.locked || (network.healthyNodes == [] && forall n :: n in network.nodes ==> !n.HealthyAt(now))
  }

  /** What an attempt finds listed and leaves so. */
  ghost predicate Listing(a: Attempt, pinned: bool, before: seq<Node>, after: seq<Node>)
  {
    if pinned then a.listed == |before| && after == DelistedBy(before, a) else a.listed > 0
  }

  /** Select and ask, keeping what was true of the attempts before. */
  method TakeTurn(network: ManagedNetwork, request: Request, ghost start: map<Node, NodeState>, ghost log: seq<Attempt>,
                  reply: Reply, clock: Clock)
    returns (r: Option<Attempt>, crashed: bool)
    requires network.Sound(clock.now) && request.Valid()
    requires Met(start, log, network.nodes, clock.now)
    modifies network`healthyNodes, network.nodes, request`nodeAccountIDs, request`index, clock
    ensures old(clock.now) <= clock.now && network.Sound(clock.now) && request.Valid()
    ensures r.None? ==> Met(start, log, network.nodes, clock.now)
    ensures r.None? ==> NothingToSelect(network, request, old(clock.now)) && request.index == old(request.index)
    ensures r.None? && request.Pinned() ==> network.healthyNodes == old(network.healthyNodes)
    ensures r.Some? ==> Met(start, log + [r.value], network.nodes, clock.now)
    ensures r.Some? ==> old(clock.now) <= r.value.at <= r.value.done == clock.now
    ensures r.Some? ==> Listing(r.value, request.Pinned(), old(network.healthyNodes), network.healthyNodes)
    ensures r.Some? && r.value.reply.Some? ==> r.value.reply.value == reply
    ensures request.Pinned() == old(request.Pinned())
    ensures r.Some? && !request.Pinned() ==> r.value.reply.Some?
    ensures request.Pinned() ==> request.nodeAccountIDs == old(request.nodeAccountIDs)
    ensures r.Some? && request.Pinned() ==>
              && r.value.node.key == request.nodeAccountIDs[old(request.index)]
              && request.index == After(old(request.index), r.value.reply.Some?, |request.nodeAccountIDs|)
    ensures crashed <==> r.Some? && Crashing(r.value)
  {
    hide Heeded, Respected, AllIn, Accounted, Truthful, Failed, Crashing, DelistedBy,
         ManagedNetwork.Sound, ManagedNetwork.Valid, AllHealthy;
    var node := SelectNode(network, request, clock);
    HeededLater(log, network.nodes, old(clock.now), clock.now);
    if node.None? {
      return None, false;
    }
    var a;
    a, crashed := AskAndLog(network, request, start, log, node.value, reply, clock);
    r := Some(a);
  }

  /** Sorts out one attempt: the outcome when it ends the loop, and what it leaves behind. */
  method HandleReply(request: Request, a: Attempt, crashed: bool, attempt: nat, maxBackoff: int, minBackoff: int,
                     error: ExecError)
    returns (final: Option<Outcome>, error': ExecError, delay: seq<int>)
    requires crashed <==> Crashing(a)
    modifies request`regenerations
    ensures final == if Ends(a, request.CanRegenerate()) then Some(Verdict(a, attempt)) else None
    ensures final.None? ==> error' == NextError(error, a)
    ensures delay == NextDelay(a, minBackoff, maxBackoff, attempt)
    ensures request.regenerations == old(request.regenerations) + NextRegenerations(a, request.CanRegenerate())
  {
    final, error', delay := None, error, [];
    if a.reply.None? {
      delay := [DelayForAttempt(minBackoff, maxBackoff, attempt)];
      return;
    }
    if crashed {
      final := Some(Panicked);
      return;
    }
    match a.reply.value {
      case ChannelError =>
      case GrpcRetryable(code) =>
        error' := GrpcError(code);
      case GrpcFatal(code) =>
        final := Some(GaveUp(GrpcError(code), attempt));
      case Response(payload, state) =>
        if state.Retry? {
          error' := StatusError(payload);
          delay := [DelayForAttempt(minBackoff, maxBackoff, attempt)];
        } else if state.Expired? {
          if request.CanRegenerate() {
            request.regenerations := request.regenerations + 1;
          } else {
            final := Some(StatusFailure(payload));
          }
        } else if state.Error? {
          final := Some(StatusFailure(payload));
        } else {
          final := Some(Done(payload, a.node.key));
        }
    }
  }

  /** One turn of the loop: an attempt, unless nothing can be selected, and what comes of it. */
  method PlayTurn(network: ManagedNetwork, request: Request, ghost start: map<Node, NodeState>, ghost log: seq<Attempt>,
                  reply: Reply, attempt: nat, maxBackoff: int, minBackoff: int, error: ExecError, clock: Clock)
    returns (turn: Option<Attempt>, final: Option<Outcome>, error': ExecError, delay: seq<int>)
    requires network.Sound(clock.now) && request.Valid() && Met(start, log, network.nodes, clock.now)
    modifies network`healthyNodes, network.nodes, request`nodeAccountIDs, request`index, request`regenerations, clock
    ensures old(clock.now) <= clock.now && network.Sound(clock.now) && request.Valid()
    ensures request.Pinned() == old(request.Pinned())
    ensures request.Pinned() ==> request.nodeAccountIDs == old(request.nodeAccountIDs)
    ensures turn.None? ==>
              && Met(start, log, network.nodes, clock.now) && NothingToSelect(network, request, old(clock.now))
              && request.index == old(request.index) && request.regenerations == old(request.regenerations)
              && (request.Pinned() ==> network.healthyNodes == old(network.healthyNodes))
    ensures turn.Some? ==>
              var a := turn.value;
              && Met(start, log + [a], network.nodes, clock.now)
              && old(clock.now) <= a.at <= a.done == clock.now
              && Listing(a, request.Pinned(), old(network.healthyNodes), network.healthyNodes)
              && (a.reply.Some? ==> a.reply.value == reply)
              && (if request.Pinned() then
                    && a.node.key == request.nodeAccountIDs[old(request.index)]
                    && request.index == After(old(request.index), a.reply.Some?, |request.nodeAccountIDs|)
                  else a.reply.Some?)
              && final == (if Ends(a, request.CanRegenerate()) then Some(Verdict(a, attempt)) else None)
              && (final.None? ==> error' == NextError(error, a))
              && delay == NextDelay(a, minBackoff, maxBackoff, attempt)
              && request.regenerations == old(request.regenerations) + NextRegenerations(a, request.CanRegenerate())
  {
    hide Met, Listing, Ends, Verdict, NextError, NextDelay, NextRegenerations, After, ManagedNetwork.Sound, Crashing,
         NothingToSelect;
    final, error', delay := None, error, [];
    var crashed;
    turn, crashed := TakeTurn(network, request, start, log, reply, clock);
    if turn.Some? {
      final, error', delay := HandleReply(request, turn.value, crashed, attempt, maxBackoff, minBackoff, error);
    }
  }

  /** Pinned requests go round their accounts; the others always reach the node drawn. */
  ghost predicate InTurn(pinned: bool, log: seq<Attempt>, ids: seq<string>, start: nat)
  {
    if pinned then ids != [] && RoundRobin(log, ids, start)
    else forall i :: 0 <= i < |log| ==> log[i].reply.Some?
  }

  lemma NextInTurn(pinned: bool, log: seq<Attempt>, a: Attempt, ids: seq<string>, start: nat, index: nat)
    requires InTurn(pinned, log, ids, start)
    requires if pinned then index == Turn(log, start, |ids|) && a.node.key == ids[index] else a.reply.Some?
    ensures InTurn(pinned, log + [a], ids, start)
    ensures pinned ==> After(index, a.reply.Some?, |ids|) == Turn(log + [a], start, |ids|)
  {
    hide Turn, After;
    if pinned {
      assert (log + [a])[..|log + [a]| - 1] == log;
      TurnNext(log, a, start, |ids|);
    }
  }

  lemma TurnNext(log: seq<Attempt>, a: Attempt, start: nat, count: nat)
    requires count > 0
    ensures Turn(log + [a], start, count) == After(Turn(log, start, count), a.reply.Some?, count)
  {
    var n := start + Calls(log);
    assert (log + [a])[..|log + [a]| - 1] == log;
    if a.reply.Some? {
      assert Calls(log + [a]) == Calls(log) + 1;
      ModNext(n, count);
      assert start + Calls(log + [a]) == n + 1;
    }
  }

  lemma FirstTurn(pinned: bool, ids: seq<string>, start: nat)
    requires pinned ==> start < |ids|
    ensures InTurn(pinned, [], ids, start)
    ensures pinned ==> start == Turn([], start, |ids|)
  {
  }

  /** The loop's own variables are functions of the attempts so far, none of which was final. */
  ghost predicate Booked(log: seq<Attempt>, replies: seq<Reply>, canRegenerate: bool, error: ExecError,
                         delays: seq<int>, regenerated: nat, minBackoff: int, maxBackoff: int)
  {
    && |log| <= |replies| && Answered(log, replies) && NoneEnds(log, canRegenerate)
    && error == LastError(log) && delays == Delays(log, minBackoff, maxBackoff)
    && regenerated == Regenerated(log, canRegenerate)
  }

  lemma BookedNext(log: seq<Attempt>, a: Attempt, replies: seq<Reply>, canRegenerate: bool, error: ExecError,
                   delays: seq<int>, regenerated: nat, minBackoff: int, maxBackoff: int)
    requires Booked(log, replies, canRegenerate, error, delays, regenerated, minBackoff, maxBackoff)
    requires |log| < |replies| && (a.reply.Some? ==> a.reply.value == replies[|log|]) && !Ends(a, canRegenerate)
    ensures Booked(log + [a], replies, canRegenerate, NextError(error, a),
                   delays + NextDelay(a, MinAfter(minBackoff, |log|), maxBackoff, |log|),
                   regenerated + NextRegenerations(a, canRegenerate), minBackoff, maxBackoff)
  {
    hide Ends, NextError, NextDelay, NextRegenerations, MinAfter;
    Appended(log, a);
  }

  /** An attempt that ends the loop completes the books and decides the outcome. */
  lemma BookedLast(log: seq<Attempt>, a: Attempt, replies: seq<Reply>, canRegenerate: bool, error: ExecError,
                   delays: seq<int>, regenerated: nat, minBackoff: int, maxBackoff: int, maxAttempts: int)
    requires Booked(log, replies, canRegenerate, error, delays, regenerated, minBackoff, maxBackoff)
    requires |log| < |replies| && (a.reply.Some? ==> a.reply.value == replies[|log|]) && Ends(a, canRegenerate)
    ensures Answered(log + [a], replies) && LastEnds(log + [a], canRegenerate)
    ensures delays + NextDelay(a, MinAfter(minBackoff, |log|), maxBackoff, |log|)
        == Delays(log + [a], minBackoff, maxBackoff)
    ensures regenerated + NextRegenerations(a, canRegenerate) == Regenerated(log + [a], canRegenerate)
    ensures Decides(Verdict(a, |log|), log + [a], maxAttempts, canRegenerate)
  {
    hide Ends, Verdict, NextDelay, NextRegenerations, MinAfter;
    Appended(log, a);
    assert (log + [a])[..|log + [a]| - 1] == log;
  }

  lemma NothingBooked(replies: seq<Reply>, canRegenerate: bool, minBackoff: int, maxBackoff: int)
    ensures Booked([], replies, canRegenerate, GenericError, [], 0, minBackoff, maxBackoff)
  {
  }

  lemma MinNow(minBackoff: int)
    ensures MinAfter(minBackoff, 0) == minBackoff
  {
  }

  lemma MinNext(minBackoff: int, k: nat)
    ensures MinAfter(minBackoff, k + 1) == Wrap64(MinAfter(minBackoff, k) * 2)
  {
  }

  /** Without an ending attempt the loop gives up when all are spent and panics before that. */
  lemma NoneLeft(log: seq<Attempt>, replies: seq<Reply>, canRegenerate: bool, error: ExecError,
                 delays: seq<int>, regenerated: nat, minBackoff: int, maxBackoff: int, maxAttempts: int)
    requires Booked(log, replies, canRegenerate, error, delays, regenerated, minBackoff, maxBackoff)
    ensures |log| <= |replies| && Answered(log, replies) && delays == Delays(log, minBackoff, maxBackoff)
    ensures regenerated == Regenerated(log, canRegenerate) && !LastEnds(log, canRegenerate)
    ensures Decides(if |log| < maxAttempts then Panicked else GaveUp(error, |log|), log, maxAttempts, canRegenerate)
  {
  }

  /** When the attempts were made, and what they found listed. */
  ghost predicate Tracked(pinned: bool, log: seq<Attempt>, listed: seq<Node>, healthy: seq<Node>, start: int, now: int)
  {
    InOrder(log, start, now) && Listings(pinned, log, listed) && (pinned ==> healthy == Delisted(listed, log))
  }

  lemma NothingTracked(pinned: bool, healthy: seq<Node>, start: int)
    ensures Tracked(pinned, [], healthy, healthy, start, start)
  {
  }

  lemma TrackedNext(pinned: bool, log: seq<Attempt>, a: Attempt, listed: seq<Node>, before: seq<Node>,
                    after: seq<Node>, start: int, now: int)
    requires Tracked(pinned, log, listed, before, start, now) && Listing(a, pinned, before, after)
    requires now <= a.at <= a.done
    ensures Tracked(pinned, log + [a], listed, after, start, a.done)
  {
    hide DelistedBy;
    var all := log + [a];
    assert all[..|all| - 1] == log;
    InOrderLater(log, start, now, a.at);
    forall i | 0 <= i < |all|
      ensures if pinned then all[i].listed == |Delisted(listed, all[..i])| else all[i].listed > 0
    {
      if i < |log| {
        assert all[..i] == log[..i];
      }
    }
  }

  lemma InOrderLater(log: seq<Attempt>, start: int, now: int, later: int)
    requires InOrder(log, start, now) && now <= later
    ensures InOrder(log, start, later)
  {
  }

  lemma TrackedGives(pinned: bool, log: seq<Attempt>, listed: seq<Node>, healthy: seq<Node>, start: int, now: int)
    requires Tracked(pinned, log, listed, healthy, start, now)
    ensures Since(log, start) <= now && InOrder(log, start, now) && Listings(pinned, log, listed)
    ensures pinned ==> healthy == Delisted(listed, log)
  {
  }

  lemma SelectedNothing(network: ManagedNetwork, request: Request, since: int, now: int)
    requires request.Valid() && NothingToSelect(network, request, now) && since <= now
    ensures NothingToSelect(network, request, since)
  {
  }

  ghost predicate LastEnds(log: seq<Attempt>, canRegenerate: bool)
  {
    log != [] && Ends(log[|log| - 1], canRegenerate)
  }

  /** The outcome the attempts call for: the verdict on one that ends the loop; otherwise giving
      up once all are spent, and a panic before that, when nothing could be selected. */
  ghost predicate Decides(outcome: Outcome, log: seq<Attempt>, maxAttempts: int, canRegenerate: bool)
  {
    if LastEnds(log, canRegenerate) then
      NoneEnds(log[..|log| - 1], canRegenerate) && outcome == Verdict(log[|log| - 1], |log| - 1)
    else
      NoneEnds(log, canRegenerate) && outcome == if |log| < maxAttempts then Panicked else GaveUp(LastError(log), |log|)
  }

  method Execute(network: ManagedNetwork, request: Request, maxAttempts: int, replies: seq<Reply>,
                 maxBackoff: int, minBackoff: Duration, clock: Clock)
    returns (outcome: Outcome, log: seq<Attempt>, delays: seq<int>)
    requires network.Sound(clock.now) && request.Valid() && maxAttempts <= |replies|
    modifies network`healthyNodes, network.nodes, request`nodeAccountIDs, request`index, request`regenerations,
             minBackoff, clock
    ensures old(clock.now) <= clock.now && network.Sound(clock.now) && request.Valid()
    // The turns follow one another; each found as many nodes listed as the failures before had left,
    // or, unless the request is pinned, at least the one drawn.
    ensures InOrder(log, old(clock.now), clock.now)
    ensures Listings(old(request.Pinned()), log, old(network.healthyNodes))
    ensures old(request.Pinned()) ==> network.healthyNodes == Delisted(old(network.healthyNodes), log)
    // At most the allowed number of attempts; every reply is used in its turn.
    ensures |log| <= |replies| && (|log| <= maxAttempts || log == []) && Answered(log, replies)
    // The first attempt that ends the loop decides; otherwise all are spent, or nothing could be selected.
    ensures Decides(outcome, log, maxAttempts, request.CanRegenerate())
    ensures |log| < maxAttempts && !LastEnds(log, request.CanRegenerate()) ==>
              NothingToSelect(network, request, Since(log, old(clock.now)))
    // Every node is in the state its logged attempts call for, and they met it in the state they record.
    ensures AllIn(log, network.nodes) && Accounted(old(StatesOf(network.nodes)), log, network.nodes)
    ensures Truthful(old(StatesOf(network.nodes)), log)
    // A failed node is not called again before its readmission time.
    ensures Respected(log)
    // An unpinned request always reaches the node drawn; a pinned one goes round its accounts.
    ensures InTurn(old(request.Pinned()), log, old(request.nodeAccountIDs), old(request.index))
    ensures request.Pinned() == old(request.Pinned())
    ensures old(request.Pinned()) ==>
              && request.nodeAccountIDs == old(request.nodeAccountIDs)
              && request.index == Turn(log, old(request.index), |request.nodeAccountIDs|)
    ensures request.regenerations == old(request.regenerations) + Regenerated(log, request.CanRegenerate())
    // The shared minimum is doubled under the caller's feet, and the delays with it.
    ensures delays == Delays(log, old(minBackoff.value), maxBackoff)
    ensures minBackoff.value
         == MinAfter(old(minBackoff.value), if LastEnds(log, request.CanRegenerate()) then |log| - 1 else |log|)
  {
    hide Met, Respected, AllIn, Accounted, Truthful, Booked, InTurn, Answered, Decides, LastEnds, Ends, Final, Failed,
         Crashing, Verdict, NextError, Delays, NextDelay, DelayForAttempt, Regenerated, NextRegenerations, Calls,
         ManagedNetwork.Sound, NoneEnds, LastError, RoundRobin, StateAfter, Wrap64, StatesOf, MinAfter, Turn, After,
         NothingToSelect, Since, InOrder, Listings, Listing, Delisted, Tracked;
    MinNow(minBackoff.value);
    var attempt := 0;
    var errPersistent := GenericError;
    log, delays := [], [];
    ghost var start, nodes := StatesOf(network.nodes), network.nodes;
    ghost var can, pinned := request.CanRegenerate(), request.Pinned();
    ghost var ids, index, regenerations := request.nodeAccountIDs, request.index, request.regenerations;
    ghost var min, began, listed := minBackoff.value, clock.now, network.healthyNodes;
    NothingLogged(network.nodes, clock.now);
    NothingBooked(replies, can, min, maxBackoff);
    NothingTracked(pinned, listed, began);
    FirstTurn(pinned, ids, index);
    while attempt < maxAttempts
      invariant 0 <= attempt && |log| == attempt && (attempt <= maxAttempts || attempt == 0)
      invariant old(clock.now) <= clock.now && network.Sound(clock.now) && request.Valid()
      invariant Tracked(pinned, log, listed, network.healthyNodes, began, clock.now)
      invariant Met(start, log, nodes, clock.now) && regenerations <= request.regenerations
      invariant Booked(log, replies, can, errPersistent, delays, request.regenerations - regenerations, min, maxBackoff)
      invariant request.Pinned() == pinned && InTurn(pinned, log, ids, index)
      invariant pinned ==> ids != [] && request.nodeAccountIDs == ids && request.index == Turn(log, index, |ids|)
      invariant minBackoff.value == MinAfter(min, attempt)
    {
      ghost var current, now, healthy := request.index, clock.now, network.healthyNodes;
      ghost var before, booked, regenerated, error := log, delays, request.regenerations - regenerations, errPersistent;
      var turn, final, delay;
      turn, final, errPersistent, delay :=
        PlayTurn(network, request, start, log, replies[attempt], attempt, maxBackoff, minBackoff.value, errPersistent,
                 clock);
      if turn.None? {
        MetGives(start, log, nodes, clock.now);
        TrackedGives(pinned, log, listed, healthy, began, now);
        InOrderLater(log, began, now, clock.now);
        SelectedNothing(network, request, Since(log, began), now);
        NoneLeft(log, replies, can, error, delays, regenerated, min, maxBackoff, maxAttempts);
        return Panicked, log, delays;
      }
      var a := turn.value;
      NextInTurn(pinned, log, a, ids, index, current);
      TrackedNext(pinned, log, a, listed, healthy, network.healthyNodes, began, now);
      log, delays := log + [a], delays + delay;
      if final.Some? {
        MetGives(start, log, nodes, clock.now);
        TrackedGives(pinned, log, listed, network.healthyNodes, began, clock.now);
        BookedLast(before, a, replies, can, error, booked, regenerated, min, maxBackoff, maxAttempts);
        return final.value, log, delays;
      }
      BookedNext(before, a, replies, can, error, booked, regenerated, min, maxBackoff);
      MinNext(min, attempt);
      minBackoff.value := Wrap64(minBackoff.value * 2);
      attempt := attempt + 1;
    }
    MetGives(start, log, nodes, clock.now);
    TrackedGives(pinned, log, listed, network.healthyNodes, began, clock.now);
    NoneLeft(log, replies, can, errPersistent, delays, request.regenerations - regenerations, min, maxBackoff,
        maxAttempts);
    outcome := GaveUp(errPersistent, attempt);
  }
}
