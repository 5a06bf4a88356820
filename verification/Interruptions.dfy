/** Runs in which a tick is interrupted, to the loss of a node or of a call, and ticks and heartbeats without interruption. */
module Interruptions {
  import opened Sequences
  import opened Gossip
  import opened Detection

  // ------------------------------------------------------------------ failing runs

  ghost predicate Reachable(l: Timeouts, self: string, start: int, s: State) { exists run :: RunsTo(l, self, start, run, s) }

  ghost predicate RunsTo(l: Timeouts, self: string, start: int, run: seq<Action>, s: State) {
    IsRun(l, self, start, run) && StateAfter(l, self, start, run) == s
  }

  lemma StepReachable(l: Timeouts, self: string, start: int, s: State, a: Action) returns (t: State)
    requires Reachable(l, self, start, s) && Enabled(s, a)
    ensures t == Step(l, self, s, a) && Reachable(l, self, start, t)
  {
    var run :| RunsTo(l, self, start, run, s);
    t := Step(l, self, s, a);
    ExtendRun(l, self, start, run, a);
    assert RunsTo(l, self, start, run + [a], t);
  }

  lemma ExtendRun(l: Timeouts, self: string, start: int, run: seq<Action>, a: Action)
    requires IsRun(l, self, start, run) && Enabled(StateAfter(l, self, start, run), a)
    ensures IsRun(l, self, start, run + [a]) && StateAfter(l, self, start, run + [a]) == Step(l, self, StateAfter(l, self, start, run), a)
  {
    var more := run + [a];
    assert more[..|more| - 1] == run;
    assert Init(more) == run && Last(more) == a;
  }

  /** Another member is known by a first message, alive or suspect. */
  lemma Known(l: Timeouts, self: string, id: string, text: string) returns (s: State)
    requires id != self
    ensures Reachable(l, self, 0, s) && s.receiver.Idle? && s.now == 0 && s.calls == [] && s.tick.Quiet?
    ensures s.view == map[self := Member(NodeAlive, 0, ""), id := Member(ParseState(text), 0, "")]
  {
    assert RunsTo(l, self, 0, [], Start(self, 0));
    MergedFirst(self, id, text);
    s := StepReachable(l, self, 0, Start(self, 0), Receive(0, map[id := Info("", text, 0)]));
  }

  lemma MergedFirst(self: string, id: string, text: string)
    requires id != self
    ensures Merged(self, Alone(self, 0), map[id := Info("", text, 0)]) ==
            map[self := Member(NodeAlive, 0, ""), id := Member(ParseState(text), 0, "")]
  {
  }

  /** A tick begins, and comes to the other member, that was silent from the start. */
  lemma AtTick(l: Timeouts, self: string, id: string, text: string, at: int) returns (s: State)
    requires id != self && 0 <= at
    ensures Reachable(l, self, 0, s) && s.receiver.Idle? && s.now == at && s.calls == []
    ensures s.view == map[self := Member(NodeAlive, 0, ""), id := Member(ParseState(text), 0, "")]
    ensures s.tick.Ticking? && s.tick.at == at && s.tick.rest == [Seen(id, 0)] && s.tick.check.NoCheck?
  {
    s := Known(l, self, id, text);
    TwoInOrder(self, id);
    assert Copied(s.view, [self, id]) == [Seen(self, 0), Seen(id, 0)];
    s := StepReachable(l, self, 0, s, BeginTick(at, [self, id]));
    assert s.tick.rest == [Seen(self, 0), Seen(id, 0)];
    s := StepReachable(l, self, 0, s, ReadState);
  }

  /** The look at a member that was silent for too long decides on the next state. */
  lemma DecidedReachable(l: Timeouts, self: string, id: string, s: State) returns (t: State)
    requires Reachable(l, self, 0, s) && id != self && Enabled(s, ReadState) && s.tick.rest[0] == Seen(id, 0) && id in s.view
    requires NextState(l, s.view[id].state, s.tick.at) != s.view[id].state
    ensures var state := s.view[id].state;
            Reachable(l, self, 0, t) &&
            t == s.(tick := s.tick.(rest := s.tick.rest[1..], check := Checking(id, 0, state, Decided(state, NextState(l, state, s.tick.at)))))
  {
    t := StepReachable(l, self, 0, s, ReadState);
    t := StepReachable(l, self, 0, t, Look);
  }

  lemma TwoInOrder(a: string, b: string)
    requires a != b
    ensures NoRepeats([a, b]) && (set id | id in [a, b]) == {a, b}
  {
    assert [a, b][..1] == [a] && [a][..0] == [];
  }

  lemma NewsOfSuspect(self: string, id: string, at: int)
    requires id != self && 0 <= at
    ensures var v := Merged(self, map[self := Member(NodeAlive, 0, ""), id := Member(NodeSuspect, 0, "")], map[id := Info("", "alive", at)]);
            id in v && v[id] == Member(NodeSuspect, at, "")
  {
  }

  /** A run in which gossip received during the tick gives a node the very date of the tick, and it is marked dead. */
  lemma GossipDuringTickIsIgnored(l: Timeouts, self: string, id: string, at: int) returns (s: State)
    requires id != self && 0 <= at && l.dead < at
    ensures Reachable(l, self, 0, s) && id in s.view && s.view[id] == Member(NodeDead, at, "") && s.now == at
  {
    s := AtTick(l, self, id, "suspect", at);
    NewsOfSuspect(self, id, at);
    s := StepReachable(l, self, 0, s, Receive(at, map[id := Info("", "alive", at)]));
    s := DecidedReachable(l, self, id, s);
    s := StepReachable(l, self, 0, s, CarryOut);
  }

  /** A heartbeat is noted and recorded in the middle of a check. */
  lemma BeatReachable(l: Timeouts, self: string, id: string, s: State, at: int) returns (t: State)
    requires Reachable(l, self, 0, s) && s.receiver.Idle? && id in s.view && !s.view[id].state.NodeAlive? && s.now <= at && s.tick.Ticking?
    ensures Reachable(l, self, 0, t) && t.view == s.view[id := s.view[id].(state := NodeAlive, heartbeat := at)]
    ensures t.receiver == Recording(id, false) && t.now == at && t.calls == s.calls
    ensures t.tick == s.tick.(refreshed := s.tick.refreshed + {id})
  {
    t := StepReachable(l, self, 0, s, HeartbeatNotes(id));
    t := StepReachable(l, self, 0, t, HeartbeatRecords(at));
  }

  /** The comparison finds another state than the first one, and the callback is called with what it is by then. */
  lemma ToldReachable(l: Timeouts, self: string, s: State) returns (t: State)
    requires Reachable(l, self, 0, s) && Enabled(s, Compare) && StateOf(s.view, s.tick.check.id) != s.tick.check.first
    ensures var c := s.tick.check;
            && Reachable(l, self, 0, t)
            && t == s.(calls := s.calls + [Change(c.id, c.first, StateOf(s.view, c.id))], tick := s.tick.(check := NoCheck))
  {
    t := StepReachable(l, self, 0, s, Compare);
    t := StepReachable(l, self, 0, t, Notify);
  }

  lemma BeatAfterLook(l: Timeouts, self: string, id: string, at: int) returns (s: State)
    requires id != self && 0 <= at && l.dead < at
    ensures Reachable(l, self, 0, s) && s.now == at && s.calls == [] && s.receiver == Recording(id, false)
    ensures id in s.view && s.view[id] == Member(NodeAlive, at, "")
    ensures s.tick.Ticking? && s.tick.check == Checking(id, 0, NodeSuspect, Decided(NodeSuspect, NodeDead))
  {
    s := AtTick(l, self, id, "suspect", at);
    s := DecidedReachable(l, self, id, s);
    s := BeatReachable(l, self, id, s, at);
  }

  /** A run in which a node sends a heartbeat during the tick and is marked dead all the same, then revived with a call. */
  lemma HeartbeatDuringTickIsLost(l: Timeouts, self: string, id: string, at: int) returns (dead: State, revived: State)
    requires id != self && 0 <= at && l.dead < at
    ensures Reachable(l, self, 0, dead) && id in dead.view && dead.view[id] == Member(NodeDead, at, "")
    ensures dead.calls == [Change(id, NodeSuspect, NodeDead)]
    ensures Reachable(l, self, 0, revived) && revived.calls == dead.calls + [Change(id, NodeDead, NodeAlive)]
  {
    var s := BeatAfterLook(l, self, id, at);
    s := StepReachable(l, self, 0, s, CarryOut);
    dead := ToldReachable(l, self, s);
    revived := StepReachable(l, self, 0, dead, HeartbeatRevives(at));
  }

  /** A run in which a node is marked dead and comes back, and the one call there is says that a suspect came back. */
  lemma DeathIsReportedAsRecovery(l: Timeouts, self: string, id: string, at: int) returns (dead: State, back: State)
    requires id != self && 0 <= at && l.dead < at
    ensures Reachable(l, self, 0, dead) && id in dead.view && dead.view[id] == Member(NodeDead, 0, "") && dead.calls == []
    ensures Reachable(l, self, 0, back) && id in back.view && back.view[id].state.NodeAlive? && back.receiver.Idle?
    ensures back.calls == [Change(id, NodeSuspect, NodeAlive)]
  {
    var s := AtTick(l, self, id, "suspect", at);
    s := DecidedReachable(l, self, id, s);
    dead := StepReachable(l, self, 0, s, CarryOut);
    s := BeatReachable(l, self, id, dead, at);
    s := ToldReachable(l, self, s);
    back := StepReachable(l, self, 0, s, HeartbeatRevives(at));
  }

  /** A run in which a node is marked suspect and comes back without any call. */
  lemma SuspicionIsNotReported(l: Timeouts, self: string, id: string, at: int) returns (suspect: State, back: State)
    requires id != self && 0 <= at && l.suspect < at
    ensures Reachable(l, self, 0, suspect) && id in suspect.view && suspect.view[id] == Member(NodeSuspect, 0, "")
    ensures Reachable(l, self, 0, back) && id in back.view && back.view[id].state.NodeAlive? && back.receiver.Idle?
    ensures back.tick.Quiet? && back.calls == []
  {
    var s := AtTick(l, self, id, "alive", at);
    s := DecidedReachable(l, self, id, s);
    suspect := StepReachable(l, self, 0, s, CarryOut);
    s := BeatReachable(l, self, id, suspect, at);
    s := StepReachable(l, self, 0, s, Compare);
    s := StepReachable(l, self, 0, s, HeartbeatRevives(at));
    back := StepReachable(l, self, 0, s, EndTick);
  }

  /** A run in which gossip dates a node in the future and its next heartbeat takes the date back. */
  lemma FutureGossipIsUndone(l: Timeouts, self: string, id: string, at: int) returns (s: State)
    requires id != self && 0 <= at
    ensures Reachable(l, self, 0, s) && id in s.view && s.view[id].heartbeat == at && id in s.heard && at + 10 in s.heard[id]
  {
    assert RunsTo(l, self, 0, [], Start(self, 0));
    s := StepReachable(l, self, 0, Start(self, 0), Receive(0, map[id := Info("", "alive", at + 10)]));
    s := StepReachable(l, self, 0, s, HeartbeatNotes(id));
    s := StepReachable(l, self, 0, s, HeartbeatRecords(at));
  }

  // -------------------------------------------------------- a tick without interruption

  /** A check up to the point where the detector compares. */
  function Settling(l: Timeouts, self: string, s: State): State
    requires Enabled(s, ReadState) && s.tick.rest[0].id != self
    ensures Enabled(Settling(l, self, s), Compare)
  {
    var looked := Step(l, self, Step(l, self, s, ReadState), Look);
    if looked.tick.check.stage.Decided? then Step(l, self, looked, CarryOut) else looked
  }

  /** And from there to its end. */
  function Telling(l: Timeouts, self: string, s: State): State
    requires Enabled(s, Compare)
  {
    var compared := Step(l, self, s, Compare);
    if compared.tick.check.NoCheck? then compared else Step(l, self, compared, Notify)
  }

  /** All steps of one member's check. */
  function WholeCheck(l: Timeouts, self: string, s: State): State
    requires Enabled(s, ReadState)
  {
    if s.tick.rest[0].id == self then Step(l, self, s, ReadState) else Telling(l, self, Settling(l, self, s))
  }

  /** Without interruption the state first read is the one decided on. */
  lemma Settles(l: Timeouts, self: string, s: State)
    requires Enabled(s, ReadState) && s.tick.rest[0].id != self && s.receiver.Idle? && s.tick.rest[0].id in s.view
    ensures var seen := s.tick.rest[0]; var state := s.view[seen.id].state; var next := NextState(l, state, s.tick.at - seen.heartbeat);
            Settling(l, self, s) ==
            s.(view := Checked(l, s.view, seen.id, s.tick.at - seen.heartbeat),
               tick := s.tick.(rest := s.tick.rest[1..], check := Checking(seen.id, seen.heartbeat, state, Settled(state, next))))
  {
    var seen := s.tick.rest[0];
    assert s.view[seen.id := s.view[seen.id]] == s.view;
  }

  lemma Tells(l: Timeouts, self: string, s: State)
    requires Enabled(s, Compare)
    ensures var c := s.tick.check; var state := StateOf(s.view, c.id);
            Telling(l, self, s) ==
            s.(calls := s.calls + if state == c.first then [] else [Change(c.id, c.first, state)], tick := s.tick.(check := NoCheck))
  {
  }

  /** What one check without interruption makes of a state in the middle of a tick. */
  function Next(l: Timeouts, self: string, s: State): State
    requires s.tick.Ticking? && s.tick.rest != [] && s.tick.rest[0].id in s.view
  {
    var seen := s.tick.rest[0];
    var elapsed := s.tick.at - seen.heartbeat;
    s.(view := if seen.id == self then s.view else Checked(l, s.view, seen.id, elapsed),
       calls := s.calls + CheckCalls(l, self, s.view, seen.id, elapsed), tick := s.tick.(rest := s.tick.rest[1..]))
  }

  lemma OneCheck(l: Timeouts, self: string, s: State)
    requires Enabled(s, ReadState) && s.receiver.Idle? && s.tick.rest[0].id in s.view
    ensures WholeCheck(l, self, s) == Next(l, self, s)
  {
    if s.tick.rest[0].id == self {
      assert s.calls + [] == s.calls;
    } else {
      Settles(l, self, s);
      Tells(l, self, Settling(l, self, s));
    }
  }

  /** A tick can go through the members in this order. */
  predicate Begins(s: State, order: seq<string>) {
    s.tick.Quiet? && s.receiver.Idle? && NoRepeats(order) && forall i :: 0 <= i < |order| ==> order[i] in s.view
  }

  lemma EnabledBegins(s: State, at: int, order: seq<string>)
    requires Enabled(s, BeginTick(at, order)) && s.receiver.Idle?
    ensures Begins(s, order) && Members(order) == s.view.Keys
  {
    forall i | 0 <= i < |order|
      ensures order[i] in s.view
    {
      assert order[i] in (set id | id in order);
    }
  }

  /** A tick in which the first `k` members of the order were dealt with, and nothing came in between. */
  ghost function MidTick(l: Timeouts, self: string, s: State, at: int, order: seq<string>, k: nat): State
    requires Begins(s, order) && k <= |order|
  {
    s.(view := TickedFirst(l, self, s.view, at, order, k), now := at, calls := s.calls + Changes(l, self, s.view, at, order, k),
       tick := Ticking(at, Copied(s.view, order)[k..], NoCheck, s.since, s.heard, map[], {}))
  }

  lemma CopiedRest(v: View, order: seq<string>, k: nat)
    requires k < |order| && forall i :: 0 <= i < |order| ==> order[i] in v
    ensures Copied(v, order)[k..][0] == Seen(order[k], v[order[k]].heartbeat)
    ensures Copied(v, order)[k..][1..] == Copied(v, order)[k + 1..]
  {
  }

  lemma CallsNext(l: Timeouts, self: string, v: View, before: View, at: int, order: seq<string>, k: nat, calls: seq<Change>)
    requires k < |order| && forall i :: 0 <= i < |order| ==> order[i] in v
    requires order[k] in before && before[order[k]] == v[order[k]]
    ensures calls + Changes(l, self, v, at, order, k + 1) ==
            calls + Changes(l, self, v, at, order, k) + CheckCalls(l, self, before, order[k], at - v[order[k]].heartbeat)
  {
  }

  lemma TickBegins(l: Timeouts, self: string, s: State, at: int, order: seq<string>)
    requires Enabled(s, BeginTick(at, order)) && Begins(s, order)
    ensures MidTick(l, self, s, at, order, 0) == Step(l, self, s, BeginTick(at, order))
  {
    TickedNone(l, self, s.view, at, order);
    assert Copied(s.view, order)[0..] == Copied(s.view, order);
  }

  lemma MidTickNext(l: Timeouts, self: string, s: State, at: int, order: seq<string>, k: nat)
    requires Begins(s, order) && k < |order|
    ensures var t := MidTick(l, self, s, at, order, k);
            && t.tick.rest != [] && t.tick.rest[0].id in t.view
            && MidTick(l, self, s, at, order, k + 1) == Next(l, self, t)
  {
    CopiedRest(s.view, order, k);
    CheckNext(l, self, s.view, at, order, k);
    CallsNext(l, self, s.view, TickedFirst(l, self, s.view, at, order, k), at, order, k, s.calls);
  }

  lemma TickContinues(l: Timeouts, self: string, s: State, at: int, order: seq<string>, k: nat)
    requires Begins(s, order) && k < |order|
    ensures Enabled(MidTick(l, self, s, at, order, k), ReadState)
    ensures WholeCheck(l, self, MidTick(l, self, s, at, order, k)) == MidTick(l, self, s, at, order, k + 1)
  {
    MidTickNext(l, self, s, at, order, k);
    OneCheck(l, self, MidTick(l, self, s, at, order, k));
  }

  ghost function Checks(l: Timeouts, self: string, s: State, at: int, order: seq<string>, k: nat): (t: State)
    requires Enabled(s, BeginTick(at, order)) && Begins(s, order) && k <= |order|
    ensures t == MidTick(l, self, s, at, order, k)
  {
    if k == 0 then
      TickBegins(l, self, s, at, order);
      Step(l, self, s, BeginTick(at, order))
    else
      TickContinues(l, self, s, at, order, k - 1);
      WholeCheck(l, self, Checks(l, self, s, at, order, k - 1))
  }

  /** A tick with nothing in between amounts to its steps: the whole list moves on, with a call for each change. */
  lemma TickIsItsSteps(l: Timeouts, self: string, s: State, at: int, order: seq<string>)
    requires Enabled(s, BeginTick(at, order)) && s.receiver.Idle?
    ensures Begins(s, order)
    ensures var t := Checks(l, self, s, at, order, |order|);
            && Enabled(t, EndTick)
            && Step(l, self, t, EndTick) == s.(view := Ticked(l, self, s.view, at), now := at,
                                               calls := s.calls + Changes(l, self, s.view, at, order, |order|))
  {
    EnabledBegins(s, at, order);
    TickedWhole(l, self, s.view, at, order);
  }

  /** With nothing in between, a heartbeat makes its sender alive and never calls back. */
  lemma HeartbeatIsItsSteps(l: Timeouts, self: string, s: State, id: string, at: int)
    requires s.receiver.Idle? && s.now <= at && id in s.view
    ensures var t := Step(l, self, s, HeartbeatNotes(id));
            && Enabled(t, HeartbeatRecords(at))
            && var u := Step(l, self, t, HeartbeatRecords(at));
               if s.view[id].state.NodeAlive? then u == Beat(s, id, at)
               else Enabled(u, HeartbeatRevives(at)) && Step(l, self, u, HeartbeatRevives(at)) == Beat(s, id, at)
  {
  }
}
