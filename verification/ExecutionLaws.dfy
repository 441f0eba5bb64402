/** What the retry loop's log of attempts says about its outcome, counters and delays. */
module ExecutionLaws {
  import opened Wrappers
  import opened Sequences
  import opened Numerals
  import opened ManagedNodes
  import opened ManagedNetworks
  import opened Execution

  predicate IsFinished(a: Attempt)
  {
    a.reply.Some? && a.reply.value.Response? && a.reply.value.state.Finished?
  }

  /** The attempts after which the loop goes on: those that reached no node; failures that found a
      node to delist; statuses to be retried; expired ones when a new ID can be made. */
  predicate GoesOn(a: Attempt, canRegenerate: bool)
  {
    match a.reply
    case None => true
    case Some(ChannelError) => a.listed > 0
    case Some(GrpcRetryable(_)) => a.listed > 0
    case Some(GrpcFatal(_)) => false
    case Some(Response(_, Retry)) => true
    case Some(Response(_, Expired)) => canRegenerate
    case Some(Response(_, Error)) => false
    case Some(Response(_, Finished)) => false
  }

  /** The loop ends at the first attempt after which it does not go on. Its reply is the outcome: a
      finished response is the result, with the account that gave it; an error, or an expired status
      without a new ID, is returned as it came; so is a fatal gRPC error, with the number of the
      attempt. Going on to the end gives up with the latest cause. */
  lemma OutcomeExactly(outcome: Outcome, log: seq<Attempt>, maxAttempts: int, canRegenerate: bool)
    requires Decides(outcome, log, maxAttempts, canRegenerate)
    ensures forall i :: 0 <= i < |log| - 1 ==> GoesOn(log[i], canRegenerate)
    ensures log != [] && !GoesOn(log[|log| - 1], canRegenerate) ==>
              var last := log[|log| - 1];
              outcome == match last.reply.value {
                case Response(payload, Finished) => Done(payload, last.node.key)
                case Response(payload, _) => StatusFailure(payload)
                case GrpcFatal(code) => GaveUp(GrpcError(code), |log| - 1)
                case _ => Panicked
              }
    ensures (forall a :: a in log ==> GoesOn(a, canRegenerate)) ==>
              outcome == if |log| < maxAttempts then Panicked else GaveUp(LastError(log), |log|)
  {
    var n := |log| - 1;
    forall i | 0 <= i < n ensures GoesOn(log[i], canRegenerate) {
      if LastEnds(log, canRegenerate) {
        assert !Ends(log[..n][i], canRegenerate);
      } else {
        assert !Ends(log[i], canRegenerate);
      }
    }
    if log != [] {
      assert log[n] in log;
    }
  }

  /** A status failure is the last reply: an error, or an expired status without a new ID. */
  lemma RefusedExactly(outcome: Outcome, log: seq<Attempt>, maxAttempts: int, canRegenerate: bool, payload: int)
    requires Decides(outcome, log, maxAttempts, canRegenerate)
    ensures outcome == StatusFailure(payload) <==>
            && log != []
            && (|| log[|log| - 1].reply == Some(Response(payload, Error))
                || (log[|log| - 1].reply == Some(Response(payload, Expired)) && !canRegenerate))
  {
    OutcomeExactly(outcome, log, maxAttempts, canRegenerate);
    AllButLast(log, canRegenerate);
  }

  lemma AllButLast(log: seq<Attempt>, canRegenerate: bool)
    requires forall i :: 0 <= i < |log| - 1 ==> GoesOn(log[i], canRegenerate)
    ensures log == [] || GoesOn(log[|log| - 1], canRegenerate) ==> forall a :: a in log ==> GoesOn(a, canRegenerate)
  {
  }

  /** Giving up on a fatal gRPC error names it and the attempt that met it; every other giving up
      comes after the last attempt, with the latest cause. */
  lemma FatalExactly(outcome: Outcome, log: seq<Attempt>, maxAttempts: int, canRegenerate: bool,
                     error: ExecError, k: int)
    requires Decides(outcome, log, maxAttempts, canRegenerate)
    ensures outcome == GaveUp(error, k) <==>
            || (log != [] && k == |log| - 1 && error.GrpcError? && log[|log| - 1].reply == Some(GrpcFatal(error.code)))
            || (&& |log| >= maxAttempts && k == |log| && error == LastError(log)
                && (log == [] || GoesOn(log[|log| - 1], canRegenerate)))
  {
    OutcomeExactly(outcome, log, maxAttempts, canRegenerate);
    AllButLast(log, canRegenerate);
  }

  /** A result is the first finished response, and carries the account that gave it. */
  lemma ResultIsFirstFinished(outcome: Outcome, log: seq<Attempt>, maxAttempts: int, canRegenerate: bool)
    requires Decides(outcome, log, maxAttempts, canRegenerate)
    ensures outcome.Done? <==> exists i :: 0 <= i < |log| && IsFinished(log[i])
    ensures outcome.Done? ==>
              && log != [] && IsFinished(log[|log| - 1])
              && outcome == Done(log[|log| - 1].reply.value.payload, log[|log| - 1].node.key)
    ensures forall i :: 0 <= i < |log| - 1 ==> !IsFinished(log[i])
  {
    OutcomeExactly(outcome, log, maxAttempts, canRegenerate);
    AllButLast(log, canRegenerate);
    hide Decides;
    if log != [] && IsFinished(log[|log| - 1]) {
      assert outcome.Done?;
    }
  }

  /** Retried gRPC errors and retried statuses leave an error behind; failing channels and
      unhealthy nodes do not, so a request that met nothing else gives up with no cause. */
  predicate LeavesError(a: Attempt)
  {
    a.reply.Some? &&
    (a.reply.value.GrpcRetryable? || (a.reply.value.Response? && a.reply.value.state.Retry?))
  }

  lemma {:induction false} CauseGiven(log: seq<Attempt>)
    ensures LastError(log) == GenericError <==> forall i :: 0 <= i < |log| ==> !LeavesError(log[i])
  {
    if log != [] {
      var n := |log| - 1;
      CauseGiven(log[..n]);
      assert log == log[..n] + [log[n]];
    }
  }

  /** The cause kept is that of the latest attempt that left one. */
  lemma {:induction false} LatestCause(log: seq<Attempt>, i: nat)
    requires i < |log| && LeavesError(log[i]) && forall j :: i < j < |log| ==> !LeavesError(log[j])
    ensures LastError(log) == match log[i].reply.value {
              case GrpcRetryable(code) => GrpcError(code)
              case Response(payload, _) => StatusError(payload)
              case _ => GenericError
            }
    decreases |log|
  {
    var n := |log| - 1;
    if i < n {
      LatestCause(log[..n], i);
      assert !LeavesError(log[n]);
    }
  }

  /** Slept over are exactly unhealthy nodes and statuses to be retried. */
  predicate SleptOver(a: Attempt)
  {
    match a.reply
    case None => true
    case Some(Response(_, Retry)) => true
    case _ => false
  }

  function Sleeps(log: seq<Attempt>): nat
  {
    if log == [] then 0 else Sleeps(log[..|log| - 1]) + if SleptOver(log[|log| - 1]) then 1 else 0
  }

  lemma {:induction false} SleepsCounted(log: seq<Attempt>, minBackoff: int, maxBackoff: int)
    ensures |Delays(log, minBackoff, maxBackoff)| == Sleeps(log)
  {
    hide MinAfter, DelayForAttempt;
    if log != [] {
      SleepsCounted(log[..|log| - 1], minBackoff, maxBackoff);
    }
  }

  /** Each is slept over once, in its turn, for the delay its number calls for. */
  lemma {:induction false} EachSlept(log: seq<Attempt>, minBackoff: int, maxBackoff: int, i: nat)
    requires i < |log| && SleptOver(log[i])
    ensures |Delays(log, minBackoff, maxBackoff)| == Sleeps(log) > Sleeps(log[..i])
    ensures Delays(log, minBackoff, maxBackoff)[Sleeps(log[..i])]
         == DelayForAttempt(MinAfter(minBackoff, i), maxBackoff, i)
    decreases |log|
  {
    hide MinAfter, DelayForAttempt;
    var n := |log| - 1;
    SleepsCounted(log, minBackoff, maxBackoff);
    SleepsCounted(log[..n], minBackoff, maxBackoff);
    if i < n {
      EachSlept(log[..n], minBackoff, maxBackoff, i);
      assert log[..n][..i] == log[..i];
    }
  }

  predicate Expiry(a: Attempt)
  {
    a.reply.Some? && a.reply.value.Response? && a.reply.value.state.Expired?
  }

  /** A new ID is made for every expired status, when it can be, and for nothing else. */
  lemma {:induction false} NewIdForEachExpiry(log: seq<Attempt>, canRegenerate: bool)
    ensures Regenerated(log, canRegenerate)
         == if canRegenerate then |set i | 0 <= i < |log| && Expiry(log[i])| else 0
  {
    if log != [] {
      var n := |log| - 1;
      NewIdForEachExpiry(log[..n], canRegenerate);
      var before, all := set i | 0 <= i < n && Expiry(log[..n][i]), set i | 0 <= i < |log| && Expiry(log[i]);
      assert all == before + if Expiry(log[n]) then {n} else {};
    }
  }

  /** After an attempt that reached its node a pinned request goes on to its next account, round
      the list; after one that did not it stays. */
  lemma TurnsMoveOn(log: seq<Attempt>, ids: seq<string>, start: nat, i: nat)
    requires ids != [] && RoundRobin(log, ids, start) && i + 1 < |log|
    ensures exists c :: 0 <= c < |ids| && ids[c] == log[i].node.key
              && log[i + 1].node.key == ids[if log[i].reply.None? then c else if c + 1 < |ids| then c + 1 else 0]
  {
    hide Turn;
    var c := Turn(log[..i], start, |ids|);
    TurnAt(log, ids, start, i);
    TurnAt(log, ids, start, i + 1);
    TurnAfter(log[..i], log[i], start, |ids|);
    TakeAppend(log, i);
    assert ids[c] == log[i].node.key;
  }

  lemma TurnAfter(log: seq<Attempt>, a: Attempt, start: nat, count: nat)
    requires count > 0
    ensures var c := Turn(log, start, count);
            Turn(log + [a], start, count) == if a.reply.None? then c else if c + 1 < count then c + 1 else 0
  {
    assert (log + [a])[..|log|] == log;
    PlaceAfter(start + Calls(log), count);
  }

  lemma PlaceAfter(n: nat, m: nat)
    requires m > 0
    ensures (n + 1) % m == if n % m + 1 < m then n % m + 1 else 0
  {
    var r := if n % m + 1 < m then n % m + 1 else 0;
    DivModUnique(n + 1, m, if n % m + 1 < m then n / m else n / m + 1, r);
  }

  lemma {:induction false} TurnAt(log: seq<Attempt>, ids: seq<string>, start: nat, i: nat)
    requires ids != [] && RoundRobin(log, ids, start) && i < |log|
    ensures log[i].node.key == ids[Turn(log[..i], start, |ids|)]
    decreases |log|
  {
    hide Turn;
    var n := |log| - 1;
    if i < n {
      TurnAt(log[..n], ids, start, i);
      assert log[..n][..i] == log[..i];
    }
  }

  // ---------------------------------------------------------------- what an attempt does to a node

  /** A failure followed by a response leaves the backoff as it was, unless a bound cut it short; a
      fatal error or an unhealthy node leaves it as it is. */
  lemma BackoffAfter(a: Attempt, b: Attempt, s: NodeState)
    requires 0 < s.min <= s.backoff <= s.max < TWO_63 / 2
    requires a.reply == Some(ChannelError) || (a.reply.Some? && a.reply.value.GrpcRetryable?)
    requires b.reply.Some? && b.reply.value.Response?
    ensures NextState(b, NextState(a, s)).backoff == s.backoff
       <==> 2 * s.backoff <= s.max || s.max / 2 == s.backoff || (s.max / 2 < s.min && s.backoff == s.min)
    ensures NextState(b, NextState(a, s)).readmit == NextState(a, s).readmit
         == Some(a.done + if 2 * s.backoff <= s.max then 2 * s.backoff else s.max)
  {
    SuccessUndoesFailure(s.backoff, s.min, s.max);
  }

  lemma NothingLearnt(a: Attempt, s: NodeState)
    requires a.reply.None? || a.reply.value.GrpcFatal?
    ensures NextState(a, s) == s.(uses := s.uses + 1, open := s.open || a.reply.Some?)
  {
  }

  /** Failures before the last attempt found something to delist. */
  lemma {:induction false} EachFailureDelists(log: seq<Attempt>, canRegenerate: bool, healthy: seq<Node>)
    requires NoneEnds(log, canRegenerate) && Listings(true, log, healthy)
    ensures FailedAttempts(log) <= |healthy|
  {
    if log != [] {
      var n := |log| - 1;
      assert log[..n + 1] == log;
      assert forall i :: 0 <= i < n ==> log[..n][..i] == log[..i];
      EachFailureDelists(log[..n], canRegenerate, healthy);
      DelistedLength(healthy, log[..n]);
      assert !Ends(log[n], canRegenerate);
    }
  }

  /** The loop panics when no node can be selected, or at a failure with nothing left to delist.
      An unpinned request never meets the latter; a pinned one meets it at the failure after as
      many as there were nodes listed when it began. */
  lemma PanicsExactly(outcome: Outcome, log: seq<Attempt>, maxAttempts: int, canRegenerate: bool,
                      pinned: bool, healthy: seq<Node>)
    requires Decides(outcome, log, maxAttempts, canRegenerate) && Listings(pinned, log, healthy)
    ensures outcome == Panicked <==>
            || (pinned && FailedAttempts(log) == |healthy| + 1)
            || (|log| < maxAttempts && !LastEnds(log, canRegenerate))
    ensures pinned ==> FailedAttempts(log) <= |healthy| + 1
  {
    var n := |log| - 1;
    if LastEnds(log, canRegenerate) {
      assert Listings(pinned, log[..n], healthy) by {
        assert forall i :: 0 <= i < n ==> log[..n][..i] == log[..i];
      }
      if pinned {
        EachFailureDelists(log[..n], canRegenerate, healthy);
        DelistedLength(healthy, log[..n]);
      }
    } else if pinned {
      EachFailureDelists(log, canRegenerate, healthy);
    }
  }

  /** A pinned request all of whose accounts are known to the network panics exactly at that
      failure: the accounts, the list and the replies decide. */
  lemma PinnedPanicsExactly(network: ManagedNetwork, request: Request, outcome: Outcome, log: seq<Attempt>,
                            maxAttempts: int, healthy: seq<Node>, now: int)
    requires request.Valid() && request.Pinned()
    requires Decides(outcome, log, maxAttempts, request.CanRegenerate()) && Listings(true, log, healthy)
    requires |log| < maxAttempts && !LastEnds(log, request.CanRegenerate()) ==> NothingToSelect(network, request, now)
    requires forall id :: id in request.nodeAccountIDs ==> id in network.network
    ensures outcome == Panicked <==> FailedAttempts(log) == |healthy| + 1
  {
    PanicsExactly(outcome, log, maxAttempts, request.CanRegenerate(), true, healthy);
  }

  // ---------------------------------------------------------------- counters in total

  ghost function Uses(log: seq<Attempt>, node: Node): nat
  {
    if log == [] then 0 else Uses(log[..|log| - 1], node) + if log[|log| - 1].node == node then 1 else 0
  }

  ghost function Failures(log: seq<Attempt>, node: Node): nat
  {
    if log == [] then 0
    else Failures(log[..|log| - 1], node) + if log[|log| - 1].node == node && Failed(log[|log| - 1]) then 1 else 0
  }

  /** A node's counters grow by its attempts and its failures; without a failure its readmission
      time stays. */
  lemma {:induction false} CountersOfState(log: seq<Attempt>, node: Node, s: NodeState)
    ensures var after := StateAfter(log, node, s);
            && after.uses == s.uses + Uses(log, node) && after.failures == s.failures + Failures(log, node)
            && (Failures(log, node) == 0 ==> after.readmit == s.readmit)
  {
    if log != [] {
      CountersOfState(log[..|log| - 1], node, s);
    }
  }

  lemma CountsAppended(log: seq<Attempt>, a: Attempt, node: Node)
    ensures Uses(log + [a], node) == Uses(log, node) + if a.node == node then 1 else 0
    ensures Failures(log + [a], node) == Failures(log, node) + if a.node == node && Failed(a) then 1 else 0
  {
    assert (log + [a])[..|log + [a]| - 1] == log;
  }

  ghost function TotalUses(log: seq<Attempt>, nodes: seq<Node>): nat
  {
    if nodes == [] then 0 else TotalUses(log, nodes[..|nodes| - 1]) + Uses(log, nodes[|nodes| - 1])
  }

  ghost function TotalFailures(log: seq<Attempt>, nodes: seq<Node>): nat
  {
    if nodes == [] then 0 else TotalFailures(log, nodes[..|nodes| - 1]) + Failures(log, nodes[|nodes| - 1])
  }

  /** One more attempt adds one use, and one failure if it failed, to the whole list. */
  lemma {:induction false} OneMore(log: seq<Attempt>, a: Attempt, nodes: seq<Node>)
    requires NoDuplicates(nodes)
    ensures TotalUses(log + [a], nodes) == TotalUses(log, nodes) + if a.node in nodes then 1 else 0
    ensures TotalFailures(log + [a], nodes) == TotalFailures(log, nodes) + if a.node in nodes && Failed(a) then 1 else 0
  {
    if nodes != [] {
      var n := |nodes| - 1;
      OneMore(log, a, nodes[..n]);
      CountsAppended(log, a, nodes[n]);
      assert nodes[n] !in nodes[..n];
      TakeAppend(nodes, n);
      TakeAll(nodes);
    }
  }

  lemma {:induction false} NoUses(nodes: seq<Node>)
    ensures TotalUses([], nodes) == 0 && TotalFailures([], nodes) == 0
  {
    if nodes != [] {
      NoUses(nodes[..|nodes| - 1]);
    }
  }

  lemma {:induction false} TotalsOfLog(log: seq<Attempt>, nodes: seq<Node>)
    requires NoDuplicates(nodes) && AllIn(log, nodes)
    ensures TotalUses(log, nodes) == |log|
    ensures TotalFailures(log, nodes) == FailedAttempts(log)
  {
    if log == [] {
      NoUses(nodes);
    } else {
      var n := |log| - 1;
      TotalsOfLog(log[..n], nodes);
      OneMore(log[..n], log[n], nodes);
      assert log == log[..n] + [log[n]];
    }
  }

  /** The counters of a list of nodes, summed. */
  ghost function UseCounts(nodes: seq<Node>): int
    reads nodes
  {
    if nodes == [] then 0 else UseCounts(nodes[..|nodes| - 1]) + nodes[|nodes| - 1].useCount
  }

  ghost function FailureCounts(nodes: seq<Node>): int
    reads nodes
  {
    if nodes == [] then 0 else FailureCounts(nodes[..|nodes| - 1]) + nodes[|nodes| - 1].badGrpcStatusCount
  }

  /** The same of states recorded earlier. */
  ghost function UsesIn(states: map<Node, NodeState>, nodes: seq<Node>): int
    requires forall n :: n in nodes ==> n in states
  {
    if nodes == [] then 0 else UsesIn(states, nodes[..|nodes| - 1]) + states[nodes[|nodes| - 1]].uses
  }

  ghost function FailuresIn(states: map<Node, NodeState>, nodes: seq<Node>): int
    requires forall n :: n in nodes ==> n in states
  {
    if nodes == [] then 0 else FailuresIn(states, nodes[..|nodes| - 1]) + states[nodes[|nodes| - 1]].failures
  }

  lemma {:induction false} CountsRecorded(states: map<Node, NodeState>, nodes: seq<Node>)
    requires forall n :: n in nodes ==> n in states && states[n] == StateOf(n)
    ensures UsesIn(states, nodes) == UseCounts(nodes) && FailuresIn(states, nodes) == FailureCounts(nodes)
  {
    if nodes != [] {
      CountsRecorded(states, nodes[..|nodes| - 1]);
    }
  }

  lemma {:induction false} CountersGrow(start: map<Node, NodeState>, log: seq<Attempt>, nodes: seq<Node>)
    requires Accounted(start, log, nodes)
    ensures forall n :: n in nodes ==> n in start
    ensures UseCounts(nodes) == UsesIn(start, nodes) + TotalUses(log, nodes)
    ensures FailureCounts(nodes) == FailuresIn(start, nodes) + TotalFailures(log, nodes)
  {
    if nodes != [] {
      var last := nodes[|nodes| - 1];
      CountersGrow(start, log, nodes[..|nodes| - 1]);
      CountersOfState(log, last, start[last]);
      assert StateOf(last) == StateAfter(log, last, start[last]);
    }
  }

  /** Over all nodes, the use counters together grow by the number of attempts, and the failure
      counters by the number that failed. */
  lemma CountersConserved(start: map<Node, NodeState>, log: seq<Attempt>, nodes: seq<Node>)
    requires NoDuplicates(nodes) && AllIn(log, nodes) && Accounted(start, log, nodes)
    ensures forall n :: n in nodes ==> n in start
    ensures UseCounts(nodes) == UsesIn(start, nodes) + |log|
    ensures FailureCounts(nodes) == FailuresIn(start, nodes) + FailedAttempts(log)
  {
    CountersGrow(start, log, nodes);
    TotalsOfLog(log, nodes);
  }

  // ---------------------------------------------------------------- delays

  const MS: int := 1_000_000

  /** The shared minimum doubles every attempt, as long as it fits 64 bits. */
  lemma {:induction false} MinDoubles(minBackoff: int, k: nat)
    requires 0 < minBackoff && Scaled(minBackoff, k) < TWO_63
    ensures MinAfter(minBackoff, k) == Scaled(minBackoff, k)
  {
    if k > 0 {
      ScaledPositive(minBackoff, k - 1);
      MinDoubles(minBackoff, k - 1);
    }
  }

  lemma {:induction false} ScaledSum(n: int, j: nat, k: nat)
    ensures Scaled(Scaled(n, j), k) == Scaled(n, j + k)
    decreases k
  {
    if k > 0 {
      ScaledSum(n, j, k - 1);
    }
  }

  lemma {:induction false} ScaledGrows(n: int, j: nat, k: nat)
    requires n > 0
    ensures Scaled(n, j) <= Scaled(n, j + k)
    ensures k > 0 ==> Scaled(n, j) < Scaled(n, j + k)
    decreases k
  {
    if k > 0 {
      ScaledGrows(n, j, k - 1);
      ScaledPositive(n, j + k - 1);
    }
  }

  lemma {:induction false} ScaledOrder(n: int, m: int, k: nat)
    requires n < m
    ensures Scaled(n, k) < Scaled(m, k)
  {
    if k > 0 {
      ScaledOrder(n, m, k - 1);
    }
  }

  /** Truncating after doubling loses less than truncating before. */
  lemma {:induction false} MillisOfScaled(d: int, k: nat)
    requires d > 0
    ensures Scaled(d, k) > 0 && 0 <= Scaled(Millis(d), k) <= Millis(Scaled(d, k))
  {
    ScaledPositive(d, k);
    if k > 0 {
      MillisOfScaled(d, k - 1);
      MillisOfDouble(Scaled(d, k - 1));
    }
  }

  lemma MillisBelow(n: int)
    requires n >= 0
    ensures 0 <= Millis(n) && Millis(n) * MS <= n
  {
  }

  lemma {:induction false} ScaledProduct(n: int, unit: int, k: nat)
    ensures Scaled(n * unit, k) == Scaled(n, k) * unit
  {
    if k > 0 {
      ScaledProduct(n, unit, k - 1);
    }
  }

  lemma MillisOfDouble(n: int)
    requires n >= 0
    ensures 2 * Millis(n) <= Millis(2 * n)
  {
  }

  /** Doubling shows in the whole milliseconds once there is one. */
  lemma MillisGrow(d: int, k: nat)
    requires d > 0
    ensures Millis(Scaled(d, k)) == Millis(d) <==> k == 0 || Scaled(d, k) < MS
  {
    MillisOfScaled(d, k);
    if k > 0 {
      ScaledGrows(d, 1, k - 1);
      assert 2 * d <= Scaled(d, k);
      WholeMillis(d, Scaled(d, k));
    }
  }

  lemma WholeMillis(d: int, e: int)
    requires 0 < 2 * d <= e
    ensures Millis(e) == Millis(d) <==> e < MS
  {
  }

  /** The delay documented beside the code: the minimum doubled once an attempt, capped. */
  function DocumentedDelay(minBackoff: int, maxBackoff: int, attempt: nat): int
  {
    Capped(Scaled(Millis(minBackoff), attempt), Millis(maxBackoff))
  }

  function Capped(ms: int, max: int): int
  {
    if ms <= max then ms else max
  }

  lemma QuadrupledMillis(d: int, k: nat)
    requires d > 0
    ensures var ms := Scaled(Millis(Scaled(d, k)), k);
            Scaled(Millis(d), 2 * k) <= ms && ms * MS <= Scaled(d, 2 * k)
  {
    MillisOfScaled(d, k);
    MillisBelow(Scaled(d, k));
    hide Scaled, Millis;
    var now := Millis(Scaled(d, k));
    assert k + k == 2 * k;
    ScaledSum(Millis(d), k, k);
    ScaledSum(d, k, k);
    ScaledProduct(now, MS, k);
    if Scaled(Millis(d), k) < now {
      ScaledOrder(Scaled(Millis(d), k), now, k);
    }
    if now * MS < Scaled(d, k) {
      ScaledOrder(now * MS, Scaled(d, k), k);
    }
  }

  lemma SameMillis(d: int, k: nat)
    requires d > 0
    ensures Scaled(Millis(d), k) <= Scaled(Millis(Scaled(d, k)), k)
    ensures Scaled(Millis(d), k) == Scaled(Millis(Scaled(d, k)), k) <==> k == 0 || Scaled(d, k) < MS
  {
    MillisGrow(d, k);
    MillisNotLess(d, k);
    hide Scaled, Millis;
    if Millis(d) < Millis(Scaled(d, k)) {
      ScaledOrder(Millis(d), Millis(Scaled(d, k)), k);
    }
  }

  lemma MillisNotLess(d: int, k: nat)
    requires d > 0
    ensures Millis(d) <= Millis(Scaled(d, k))
  {
    ScaledGrows(d, 0, k);
  }

  lemma CappedAlike(x: int, y: int, max: int)
    requires y <= x
    ensures Capped(x, max) == Capped(y, max) <==> x == y || max <= y
  {
  }

  /** The delays of a client left at its defaults, 250 milliseconds up to 8 seconds. */
  lemma DefaultDelays(k: nat)
    requires k < 4
    ensures DelayForAttempt(MinAfter(250_000_000, k), 8_000_000_000, k)
         == if k == 0 then 250 else if k == 1 then 1000 else if k == 2 then 4000 else 8000
  {
    DefaultMin(k);
    hide MinAfter;
    assert Scaled(250, 0) == 250 && Scaled(500, 1) == 1000;
    assert Scaled(1000, 1) == 2000;
    assert Scaled(1000, 2) == 4000;
    assert Scaled(2000, 1) == 4000;
    assert Scaled(2000, 2) == 8000;
    assert Scaled(2000, 3) == 16000;
  }

  lemma DefaultMin(k: nat)
    requires k < 4
    ensures MinAfter(250_000_000, k) == if k == 0 then 250_000_000 else if k == 1 then 500_000_000
                                        else if k == 2 then 1_000_000_000 else 2_000_000_000
  {
    assert Scaled(250_000_000, 1) == 500_000_000;
    assert Scaled(250_000_000, 2) == 1_000_000_000;
    assert Scaled(250_000_000, 3) == 2_000_000_000;
    MinDoubles(250_000_000, k);
  }

  /** The doubling happens twice, once in the formula and once through the shared minimum, so
      before capping the delay of attempt `k` is quadrupled `k` times, to within the truncation to
      milliseconds. It is the documented one only at the start, while the shared minimum is below
      a millisecond, or once the documented one has reached the cap. */
  lemma DelaysQuadruple(minBackoff: int, maxBackoff: int, k: nat)
    requires 0 < minBackoff && Scaled(minBackoff, k) < TWO_63
    ensures var delay := DelayForAttempt(MinAfter(minBackoff, k), maxBackoff, k);
            var ms := Scaled(Millis(Scaled(minBackoff, k)), k);
            && delay == Capped(ms, Millis(maxBackoff))
            && Scaled(Millis(minBackoff), 2 * k) <= ms && ms * MS <= Scaled(minBackoff, 2 * k)
            && (delay == DocumentedDelay(minBackoff, maxBackoff, k)
                <==> k == 0 || Scaled(minBackoff, k) < MS || Millis(maxBackoff) <= Scaled(Millis(minBackoff), k))
  {
    hide Scaled, MinAfter, Millis;
    MinDoubles(minBackoff, k);
    QuadrupledMillis(minBackoff, k);
    SameMillis(minBackoff, k);
    CappedAlike(Scaled(Millis(Scaled(minBackoff, k)), k), Scaled(Millis(minBackoff), k), Millis(maxBackoff));
  }
}
