/** What holds over every run of a network: a node is not met again before the readmission time its
    latest failure has set, in whichever event and through whatever copies. */
module RunLaws {
  import opened Wrappers
  import opened Sequences
  import opened ManagedNodes
  import opened ManagedNetworks
  import opened Execution
  import opened NetworkViews

  // ---------------------------------------------------------------- the same node over a run

  /** After an event, `b` is what `a` has become: its copy at the same place, or the node itself. A
      replacement of the list leaves no heirs of those it drops. */
  ghost predicate Heir(s: View, e: Event, t: View, a: Node, b: Node)
  {
    if e.Replace? then a == b && a in s.nodes && a in t.nodes
    else exists i :: 0 <= i < |s.nodes| && i < |t.nodes| && s.nodes[i] == a && t.nodes[i] == b
  }

  /** One node followed through a run, copies included. */
  ghost predicate Line(views: seq<View>, events: seq<Event>, d: seq<Node>)
  {
    && |d| == |views| == |events| + 1 && d[0] in views[0].nodes
    && forall k :: 0 <= k < |events| ==> Heir(views[k], events[k], views[k + 1], d[k], d[k + 1])
  }

  lemma SameLength(s: View, e: Event, t: View, h: Happened)
    requires Next(s, e, t, h) && !e.Replace?
    ensures NoDuplicates(s.nodes) && |t.nodes| == |s.nodes|
  {
    hide CopiedState, Answered, Decides, NoneSelectable, AllIn, Truthful, InOrder, InTurn, Listings, Delisted,
         StateAfter, LastEnds, Without, PositionOf;
  }

  /** Every node but a dropped one has exactly one heir. */
  lemma OneHeir(s: View, e: Event, t: View, h: Happened, a: Node)
    requires Next(s, e, t, h) && a in s.nodes && (e.Replace? ==> a in t.nodes)
    ensures exists b :: b in t.nodes && Heir(s, e, t, a, b)
    ensures forall b, c :: Heir(s, e, t, a, b) && Heir(s, e, t, a, c) ==> b == c
  {
    hide Next;
    var i :| 0 <= i < |s.nodes| && s.nodes[i] == a;
    if !e.Replace? {
      SameLength(s, e, t, h);
      assert t.nodes[i] in t.nodes && Heir(s, e, t, a, t.nodes[i]);
    } else {
      assert Heir(s, e, t, a, a);
    }
  }

  // ---------------------------------------------------------------- readmission times

  /** The readmission time the latest failure of a node in a request has set. */
  ghost function LastFailureIn(log: seq<Attempt>, node: Node): Option<int>
  {
    if log == [] then None
    else
      var n := |log| - 1;
      if log[n].node == node && Failed(log[n]) then log[n].readmit else LastFailureIn(log[..n], node)
  }

  /** The same for what happened at one event, and over the events so far. */
  ghost function FailureAt(h: Happened, node: Node): Option<int>
  {
    match h
    case FailedUntil(n, until) => if n == node then Some(until) else None
    case Requested(_, log) => LastFailureIn(log, node)
    case _ => None
  }

  ghost function LatestFailure(happened: seq<Happened>, d: seq<Node>): Option<int>
    requires |happened| <= |d|
  {
    if happened == [] then None
    else
      var n := |happened| - 1;
      Or(FailureAt(happened[n], d[n]), LatestFailure(happened[..n], d))
  }

  function Or(first: Option<int>, second: Option<int>): Option<int>
  {
    if first.Some? then first else second
  }

  /** Within a request the readmission time is that of the latest failure. */
  lemma {:induction false} ReadmitOfLog(start: map<Node, NodeState>, log: seq<Attempt>, node: Node)
    requires Truthful(start, log) && node in start
    ensures StateAfter(log, node, start[node]).readmit == Or(LastFailureIn(log, node), start[node].readmit)
  {
    if log != [] {
      ReadmitOfLog(start, log[..|log| - 1], node);
    }
  }

  /** Nothing but a failure changes the readmission time of a node, and a copy has its original's. */
  lemma StepReadmits(s: View, e: Event, t: View, h: Happened, a: Node, b: Node)
    requires Next(s, e, t, h) && Heir(s, e, t, a, b)
    ensures a in s.states && b in t.states
    ensures t.states[b].readmit == Or(FailureAt(h, a), s.states[a].readmit)
  {
    if e.Execute? {
      RequestReadmits(s, e, t, h, a, b);
    } else {
      OtherReadmits(s, e, t, h, a, b);
    }
  }

  lemma RequestReadmits(s: View, e: Event, t: View, h: Happened, a: Node, b: Node)
    requires Next(s, e, t, h) && e.Execute? && Heir(s, e, t, a, b)
    ensures a in s.states && b in t.states
    ensures t.states[b].readmit == Or(FailureAt(h, a), s.states[a].readmit)
  {
    hide Answered, Decides, NoneSelectable, AllIn, Truthful, InOrder, InTurn, Listings, Delisted, StateAfter, LastEnds,
         LastFailureIn;
    ReadmitOfLog(s.states, h.log, a);
  }

  lemma OtherReadmits(s: View, e: Event, t: View, h: Happened, a: Node, b: Node)
    requires Next(s, e, t, h) && !e.Execute? && Heir(s, e, t, a, b)
    ensures a in s.states && b in t.states
    ensures t.states[b].readmit == Or(FailureAt(h, a), s.states[a].readmit)
  {
    hide Served, NewFor, Unparsable, Without, PositionOf, DueListed, NoDuplicates, ParseAddress;
  }

  lemma {:induction false} LineReadmits(views: seq<View>, events: seq<Event>, happened: seq<Happened>, d: seq<Node>)
    requires IsRun(views, events, happened) && Line(views, events, d)
    ensures d[0] in views[0].states && d[|events|] in views[|events|].states
    ensures views[|events|].states[d[|events|]].readmit == Or(LatestFailure(happened, d), views[0].states[d[0]].readmit)
  {
    hide Next, FailureAt, Heir;
    var n := |events| - 1;
    if n >= 0 {
      var vs, es, hs, ds := views[..n + 1], events[..n], happened[..n], d[..n + 1];
      assert IsRun(vs, es, hs) && Line(vs, es, ds);
      LineReadmits(vs, es, hs, ds);
      SameFailures(hs, d, ds);
      StepReadmits(views[n], events[n], views[n + 1], happened[n], d[n], d[n + 1]);
    }
  }

  lemma {:induction false} SameFailures(happened: seq<Happened>, d: seq<Node>, e: seq<Node>)
    requires |happened| <= |e| && e <= d
    ensures LatestFailure(happened, d) == LatestFailure(happened, e)
  {
    if happened != [] {
      SameFailures(happened[..|happened| - 1], d, e);
    }
  }

  /** Nothing in a run changes the network's minimum. */
  lemma {:induction false} MinKept(views: seq<View>, events: seq<Event>, happened: seq<Happened>, k: nat)
    requires IsRun(views, events, happened) && k < |views|
    ensures views[k].min == views[0].min
  {
    hide Sane;
    if k > 0 {
      MinKept(views, events, happened, k - 1);
      StepKeepsMin(views[k - 1], events[k - 1], views[k], happened[k - 1]);
    }
  }

  lemma StepKeepsMin(s: View, e: Event, t: View, h: Happened)
    requires Next(s, e, t, h)
    ensures t.min == s.min
  {
    hide Sane, CopiedState, NewFor, Unparsable, Answered, Decides, NoneSelectable, AllIn, Truthful, InOrder, InTurn,
         Listings, Delisted, StateAfter, LastEnds, Without, PositionOf, DueListed;
  }

  /** The first failure of a node just made for an address keeps it out for at least the network's
      minimum: for twice the minimum, but no more than an hour. */
  lemma FirstFailure(s: View, net: map<string, string>, t: View, i: nat, u: View, made: Happened, h: Happened)
    requires Next(s, Replace(net), t, made) && t.nodes != s.nodes && 0 < t.min <= 3_600_000_000_000
    requires Next(t, Fail(i), u, h) && i < |t.nodes|
    ensures h == FailedUntil(t.nodes[i], u.now + if t.min <= 1_800_000_000_000 then 2 * t.min else 3_600_000_000_000)
    ensures u.now + s.min <= h.until
    ensures t.nodes[i] !in u.healthy && !DueAt(u.states[t.nodes[i]].readmit, u.now + s.min)
  {
    hide Next, WithoutFailed, Doubled;
    MadeStates(s, net, t, made);
    FailureSeen(t, i, u, h);
    DoubledOnce(t.min);
  }

  lemma DoubledOnce(min: int)
    requires 0 < min <= 3_600_000_000_000
    ensures Doubled(min, 3_600_000_000_000)
         == if min <= 1_800_000_000_000 then 2 * min else 3_600_000_000_000
  {
  }

  lemma MadeStates(s: View, net: map<string, string>, t: View, h: Happened)
    requires Next(s, Replace(net), t, h) && t.nodes != s.nodes
    ensures t.min == s.min
    ensures forall n :: n in t.nodes ==>
                          && n in t.states && t.states[n].readmit == None
                          && t.states[n].min == t.states[n].backoff == t.min && t.states[n].max == 3_600_000_000_000
  {
    hide Renewed, NoDuplicates;
    RenewedStates(s, net, t);
  }

  lemma RenewedStates(s: View, net: map<string, string>, t: View)
    requires Sane(t) && Renewed(s, t, net)
    ensures t.min == s.min
    ensures forall n :: n in t.nodes ==>
                          && n in t.states && t.states[n].readmit == None
                          && t.states[n].min == t.states[n].backoff == t.min && t.states[n].max == 3_600_000_000_000
  {
    hide ParseAddress, NoDuplicates;
  }

  lemma FailureSeen(t: View, i: nat, u: View, h: Happened)
    requires Next(t, Fail(i), u, h) && i < |t.nodes|
    ensures t.nodes[i] in t.states && t.nodes[i] in u.states
    ensures var was, state := t.states[t.nodes[i]], u.states[t.nodes[i]];
            && h == FailedUntil(t.nodes[i], u.now + Doubled(was.backoff, was.max)) && state.readmit == Some(h.until)
    ensures !DueAt(u.states[t.nodes[i]].readmit, u.now) ==> t.nodes[i] !in u.healthy
  {
    hide Doubled, WithoutFailed, NoDuplicates;
  }

  // ---------------------------------------------------------------- never met early

  /** At an event, the node is drawn only when due, and called by a request exactly when due,
      where `before` is its readmission time until then. */
  ghost predicate HeldOff(h: Happened, node: Node, before: Option<int>)
  {
    match h
    case Drawn(n, at) => n == Some(node) ==> DueAt(before, at)
    case Requested(_, log) =>
      forall k :: 0 <= k < |log| && log[k].node == node ==>
                    (log[k].reply.Some? <==> DueAt(Or(LastFailureIn(log[..k], node), before), log[k].at))
    case _ => true
  }

  lemma {:induction false} TruthfulAt(start: map<Node, NodeState>, log: seq<Attempt>, k: nat)
    requires Truthful(start, log) && k < |log|
    ensures Truthful(start, log[..k]) && log[k].node in start
    ensures log[k].was == StateAfter(log[..k], log[k].node, start[log[k].node]).readmit
    ensures log[k].reply.Some? <==> DueThen(log[k])
  {
    var n := |log| - 1;
    if k < n {
      TruthfulAt(start, log[..n], k);
      assert log[..n][..k] == log[..k];
    }
  }

  lemma StepHoldsOff(s: View, e: Event, t: View, h: Happened, node: Node)
    requires Next(s, e, t, h) && node in s.states
    ensures HeldOff(h, node, s.states[node].readmit)
  {
    hide StateAfter, Truthful, LastFailureIn, Answered, Decides, NoneSelectable, AllIn, InOrder, InTurn, Listings,
         Delisted, LastEnds, Copied, Renewed, NotClosed, OneChanged, Unparsable;
    if e.Execute? {
      forall k | 0 <= k < |h.log| && h.log[k].node == node
        ensures h.log[k].reply.Some? <==>
                DueAt(Or(LastFailureIn(h.log[..k], node), s.states[node].readmit), h.log[k].at)
      {
        TruthfulAt(s.states, h.log, k);
        ReadmitOfLog(s.states, h.log[..k], node);
      }
    }
  }

  lemma RunSegment(views: seq<View>, events: seq<Event>, happened: seq<Happened>, i: nat, j: nat)
    requires IsRun(views, events, happened) && i <= j < |views|
    ensures IsRun(views[i..j + 1], events[i..j], happened[i..j])
  {
    hide Served, Copied, Renewed, NotClosed, OneChanged, Relisted, Unparsable;
    var vs := views[i..j + 1];
    assert Sane(views[i]) by {
      if i > 0 {
        assert Next(views[i - 1], events[i - 1], views[i], happened[i - 1]);
      }
    }
    forall k | 0 <= k < j - i ensures Next(vs[k], events[i..j][k], vs[k + 1], happened[i..j][k]) {
      assert Next(views[i + k], events[i + k], views[i + k + 1], happened[i + k]);
    }
  }

  /** From any moment of a run on, for any node listed then: whenever it is drawn, its latest
      failure's readmission time is past, or the one it began with; a request that selects it
      calls it exactly when that is so. */
  lemma NeverEarly(views: seq<View>, events: seq<Event>, happened: seq<Happened>, i: nat, j: nat, d: seq<Node>)
    requires IsRun(views, events, happened)
    requires i <= j < |happened| && Line(views[i..j + 1], events[i..j], d)
    ensures d[0] in views[i].states
    ensures HeldOff(happened[j], d[j - i], Or(LatestFailure(happened[i..j], d), views[i].states[d[0]].readmit))
  {
    hide Next, Sane, HeldOff, LatestFailure;
    RunSegment(views, events, happened, i, j);
    LineReadmits(views[i..j + 1], events[i..j], happened[i..j], d);
    assert Next(views[j], events[j], views[j + 1], happened[j]);
    StepHoldsOff(views[j], events[j], views[j + 1], happened[j], d[j - i]);
  }
}
