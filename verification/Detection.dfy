/**
 * The failure detector and the receiver of gossip, interleaved: a tick copies the members, then for
 * each reads its state, looks at it to decide, carries the decision out, compares the state with the
 * one it read first and notifies, each in a step of its own; a heartbeat is noted, recorded and, for
 * a member that was not alive, followed by a revival.
 */
module Detection {
  import opened Sequences
  import opened Gossip

  /** Dates heard for each node. */
  type Dated = map<string, set<int>>

  /** A member as the detector copied it at the start of a tick. */
  datatype Seen = Seen(id: string, heartbeat: int)

  /**
   * How far the check of a member got: the state that the decision was read from and the one it
   * leads to, which are the same when there is nothing to carry out.
   */
  datatype Stage =
    | Looking
    | Decided(from: NodeState, to: NodeState)
    | Settled(from: NodeState, to: NodeState)
    | Differing(from: NodeState, to: NodeState)

  /** The member being checked, and the state it was in at first. */
  datatype Check = NoCheck | Checking(id: string, heartbeat: int, first: NodeState, stage: Stage)

  /**
   * A tick under way: the members still to check, the dates heard since each one's last heartbeat
   * and in all before the tick, the dates gossiped since, and who sent a heartbeat since.
   */
  datatype Tick =
    | Quiet
    | Ticking(at: int, rest: seq<Seen>, check: Check, before: Dated, past: Dated, news: Dated, refreshed: set<string>)

  /** The receiver between its calls; `overtaken` by a transition of the same member since it recorded. */
  datatype Receiver = Idle | Noted(id: string, state: NodeState) | Recording(id: string, overtaken: bool)

  /** Beside the view: the dates heard since each member's last heartbeat, and in all since it joined. */
  datatype State = State(view: View, tick: Tick, receiver: Receiver, now: int, since: Dated, heard: Dated, calls: seq<Change>)

  datatype Action =
    | Receive(at: int, message: Message)
    | HeartbeatNotes(id: string)
    | HeartbeatRecords(at: int)
    | HeartbeatRevives(at: int)
    | Revive(at: int, id: string)
    | Add(at: int, id: string, state: NodeState, address: string)
    | Remove(id: string)
    | BeginTick(at: int, order: seq<string>)
    | ReadState
    | Look
    | CarryOut
    | Compare
    | Notify
    | EndTick

  function Start(self: string, now: int): State {
    State(Alone(self, now), Quiet, Idle, now, map[self := {now}], map[self := {now}], [])
  }

  // ---------------------------------------------------------------------- steps

  predicate Enabled(s: State, a: Action) {
    match a
    case Receive(at, _) => s.now <= at && s.receiver.Idle?
    case HeartbeatNotes(_) => s.receiver.Idle?
    case HeartbeatRecords(at) => s.now <= at && s.receiver.Noted?
    case HeartbeatRevives(at) => s.now <= at && s.receiver.Recording?
    case Revive(at, _) => s.now <= at
    case Add(at, _, _, _) => s.now <= at && s.tick.Quiet? && s.receiver.Idle?
    case Remove(_) => s.tick.Quiet? && s.receiver.Idle?
    case BeginTick(at, order) => s.now <= at && s.tick.Quiet? && NoRepeats(order) && (set id | id in order) == s.view.Keys
    case ReadState => s.tick.Ticking? && s.tick.check.NoCheck? && s.tick.rest != []
    case Look => IsChecking(s) && s.tick.check.stage.Looking?
    case CarryOut => IsChecking(s) && s.tick.check.stage.Decided?
    case Compare => IsChecking(s) && s.tick.check.stage.Settled?
    case Notify => IsChecking(s) && s.tick.check.stage.Differing?
    case EndTick => s.tick.Ticking? && s.tick.check.NoCheck? && s.tick.rest == []
  }

  predicate IsChecking(s: State) { s.tick.Ticking? && s.tick.check.Checking? }

  function DatesOf(d: Dated, id: string): set<int> { if id in d then d[id] else {} }

  function With(d: Dated, id: string, at: int): Dated { d[id := DatesOf(d, id) + {at}] }

  function Gossiped(self: string, message: Message, id: string): set<int> {
    if id in message && id != self then {message[id].lastSeen} else {}
  }

  function WithAll(self: string, d: Dated, message: Message): Dated {
    map id | id in d.Keys + (message.Keys - {self}) :: DatesOf(d, id) + Gossiped(self, message, id)
  }

  function Refreshed(t: Tick, id: string): Tick { if t.Quiet? then t else t.(refreshed := t.refreshed + {id}) }

  /** A heartbeat dates a known member now and makes it alive. */
  function Beat(s: State, id: string, at: int): State {
    s.(view := Recorded(s.view, id, at), now := at, since := s.since[id := {at}], heard := With(s.heard, id, at), tick := Refreshed(s.tick, id))
  }

  function Copied(v: View, order: seq<string>): seq<Seen>
    requires forall id :: id in order ==> id in v
  {
    seq(|order|, i requires 0 <= i < |order| => Seen(order[i], v[order[i]].heartbeat))
  }

  function Overtaken(r: Receiver, id: string, overtaken: bool): Receiver {
    if r.Recording? && r.id == id then r.(overtaken := overtaken) else r
  }

  function Revival(s: State, id: string, at: int): State {
    if id !in s.view || s.view[id].state.NodeAlive? then s.(now := at)
    else Beat(s, id, at).(calls := s.calls + RevivalCalls(s.view, id), receiver := Overtaken(s.receiver, id, false))
  }

  function Step(l: Timeouts, self: string, s: State, a: Action): State
    requires Enabled(s, a)
  {
    match a
    case Receive(at, message) =>
      s.(view := Merged(self, s.view, message), now := at, since := WithAll(self, s.since, message), heard := WithAll(self, s.heard, message),
         tick := if s.tick.Ticking? then s.tick.(news := WithAll(self, s.tick.news, message)) else s.tick)
    case HeartbeatNotes(id) => if id in s.view then s.(receiver := Noted(id, s.view[id].state)) else s
    case HeartbeatRecords(at) =>
      var r := s.receiver;
      Beat(s, r.id, at).(receiver := if r.state.NodeAlive? then Idle else Recording(r.id, false))
    case HeartbeatRevives(at) => Revival(s, s.receiver.id, at).(receiver := Idle)
    case Revive(at, id) => Revival(s, id, at)
    case Add(at, id, state, address) =>
      s.(view := s.view[id := Member(state, at, address)], now := at, since := s.since[id := {at}], heard := With(s.heard, id, at))
    case Remove(id) => if id == self then s else s.(view := s.view - {id}, since := s.since - {id}, heard := s.heard - {id})
    case BeginTick(at, order) => s.(now := at, tick := Ticking(at, Copied(s.view, order), NoCheck, s.since, s.heard, map[], {}))
    case ReadState => s.(tick := s.tick.(rest := s.tick.rest[1..], check := CheckOf(self, s.view, s.tick.rest[0])))
    case Look => s.(tick := s.tick.(check := s.tick.check.(stage := Decision(l, StateOf(s.view, s.tick.check.id), s.tick.at - s.tick.check.heartbeat))))
    case CarryOut =>
      var c := s.tick.check;
      s.(view := Updated(s.view, c.id, c.stage.to, s.now), tick := s.tick.(check := c.(stage := Settled(c.stage.from, c.stage.to))),
         receiver := Overtaken(s.receiver, c.id, true))
    case Compare =>
      var c := s.tick.check;
      s.(tick := s.tick.(check := if StateOf(s.view, c.id) == c.first then NoCheck else c.(stage := Differing(c.stage.from, c.stage.to))))
    case Notify =>
      var c := s.tick.check;
      s.(tick := s.tick.(check := NoCheck), calls := s.calls + [Change(c.id, c.first, StateOf(s.view, c.id))])
    case EndTick => s.(tick := Quiet)
  }

  /** The state as read from the shared node; a missing one counts as dead. */
  function StateOf(v: View, id: string): NodeState { if id in v then v[id].state else NodeDead }

  /** The detector passes over its own node. */
  function CheckOf(self: string, v: View, seen: Seen): Check {
    if seen.id == self then NoCheck else Checking(seen.id, seen.heartbeat, StateOf(v, seen.id), Looking)
  }

  function Decision(l: Timeouts, state: NodeState, elapsed: int): Stage {
    var next := NextState(l, state, elapsed);
    if next == state then Settled(state, state) else Decided(state, next)
  }

  /** A transition of the member was carried out. */
  predicate Carried(c: Check) { c.Checking? && (c.stage.Settled? || c.stage.Differing?) && c.stage.from != c.stage.to }

  // ------------------------------------------------------------------ invariant

  ghost predicate Tracks(s: State) {
    && s.since.Keys == s.heard.Keys == s.view.Keys
    && forall id :: id in s.view ==> s.since[id] <= s.heard[id] && IsGreatest(s.since[id], s.view[id].heartbeat)
  }

  /** All dates are out of the time allowed at the tick. */
  predicate AllOlder(dates: set<int>, at: int, limit: int) { forall d :: d in dates ==> at - d > limit }

  /** What was heard of a member since the tick began, or that it sent a heartbeat. */
  predicate SinceTick(s: State, id: string)
    requires s.tick.Ticking?
  {
    && id in s.view && id in s.since && id in s.tick.before && id in s.tick.past && s.tick.before[id] <= s.tick.past[id]
    && (id in s.tick.refreshed ==> s.tick.at <= s.view[id].heartbeat)
    && (id !in s.tick.refreshed ==> s.since[id] == s.tick.before[id] + DatesOf(s.tick.news, id))
  }

  /** A member still to be checked: if it sent a heartbeat it is alive. */
  predicate SeenOk(s: State, seen: Seen)
    requires s.tick.Ticking?
  {
    && SinceTick(s, seen.id) && IsGreatest(s.tick.before[seen.id], seen.heartbeat)
    && (seen.id in s.tick.refreshed ==> s.view[seen.id].state.NodeAlive?)
  }

  /** What was decided and why, and the member's state as long as nothing was carried out. */
  predicate CheckOk(l: Timeouts, self: string, s: State)
    requires IsChecking(s)
  {
    var c := s.tick.check;
    && c.id != self && SinceTick(s, c.id) && IsGreatest(s.tick.before[c.id], c.heartbeat)
    && (!Carried(c) ==> s.view[c.id].state == if c.id in s.tick.refreshed then NodeAlive else c.first)
    && (!c.stage.Looking? ==>
          && c.stage.to == NextState(l, c.stage.from, s.tick.at - c.heartbeat)
          && (c.stage.from == c.first || (c.stage.from.NodeAlive? && c.id in s.tick.refreshed)))
    && (c.stage.Decided? ==> c.stage.from != c.stage.to)
  }

  ghost predicate TickOk(l: Timeouts, self: string, s: State) {
    s.tick.Ticking? ==>
      && s.tick.at <= s.now
      && (forall i :: 0 <= i < |s.tick.rest| ==> SeenOk(s, s.tick.rest[i]))
      && (forall i, j :: 0 <= i < j < |s.tick.rest| ==> s.tick.rest[i].id != s.tick.rest[j].id)
      && (s.tick.check.Checking? ==>
            && CheckOk(l, self, s)
            && forall i :: 0 <= i < |s.tick.rest| ==> s.tick.rest[i].id != s.tick.check.id)
  }

  /** Until the revival, a member that was recorded is alive unless a transition overtook it. */
  predicate ReceiverOk(s: State) {
    match s.receiver
    case Idle => true
    case Noted(id, _) => id in s.view
    case Recording(id, overtaken) => id in s.view && (s.view[id].state.NodeAlive? <==> !overtaken)
  }

  ghost predicate Inv(l: Timeouts, self: string, s: State) { Tracks(s) && TickOk(l, self, s) && ReceiverOk(s) }

  lemma MergedTracks(self: string, v: View, since: Dated, heard: Dated, message: Message, id: string)
    requires (id in since <==> id in v) && (id in heard <==> id in v)
    requires id in v ==> since[id] <= heard[id] && IsGreatest(since[id], v[id].heartbeat)
    requires id in Merged(self, v, message)
    ensures var since', heard' := WithAll(self, since, message), WithAll(self, heard, message);
            id in since' && id in heard' && since'[id] <= heard'[id] && IsGreatest(since'[id], Merged(self, v, message)[id].heartbeat)
  {
    WithAllAt(self, since, message, id);
    WithAllAt(self, heard, message, id);
    if id in v && id in message && id != self { GreatestJoined(since[id], v[id].heartbeat, message[id].lastSeen); }
  }

  lemma GreatestJoined(dates: set<int>, d: int, e: int)
    requires IsGreatest(dates, d)
    ensures IsGreatest(dates + {e}, if e > d then e else d)
  {
  }

  lemma ReceiveKeepsTracks(l: Timeouts, self: string, s: State, at: int, message: Message)
    requires Tracks(s) && Enabled(s, Receive(at, message))
    ensures Tracks(Step(l, self, s, Receive(at, message)))
  {
    var t := Step(l, self, s, Receive(at, message));
    forall id | id in t.view
      ensures t.since[id] <= t.heard[id] && IsGreatest(t.since[id], t.view[id].heartbeat)
    {
      MergedTracks(self, s.view, s.since, s.heard, message, id);
    }
  }

  lemma BeatKeepsTracks(s: State, id: string, at: int)
    requires Tracks(s) && id in s.view
    ensures Tracks(Beat(s, id, at))
  {
  }

  lemma RevivalKeepsTracks(s: State, id: string, at: int)
    requires Tracks(s)
    ensures Tracks(Revival(s, id, at))
  {
    if id in s.view && !s.view[id].state.NodeAlive? { BeatKeepsTracks(s, id, at); }
  }

  lemma StepKeepsTracks(l: Timeouts, self: string, s: State, a: Action)
    requires Inv(l, self, s) && Enabled(s, a)
    ensures Tracks(Step(l, self, s, a))
  {
    match a
    case Receive(at, message) => ReceiveKeepsTracks(l, self, s, at, message);
    case HeartbeatRecords(at) => BeatKeepsTracks(s, s.receiver.id, at);
    case HeartbeatRevives(at) => RevivalKeepsTracks(s, s.receiver.id, at);
    case Revive(at, id) => RevivalKeepsTracks(s, id, at);
    case _ =>
  }

  lemma StepKeepsReceiverOk(l: Timeouts, self: string, s: State, a: Action)
    requires Inv(l, self, s) && Enabled(s, a)
    ensures ReceiverOk(Step(l, self, s, a))
  {
  }

  lemma ReceiveKeepsSince(l: Timeouts, self: string, s: State, at: int, message: Message, id: string)
    requires Tracks(s) && Enabled(s, Receive(at, message)) && s.tick.Ticking? && SinceTick(s, id)
    ensures var t := Step(l, self, s, Receive(at, message)); SinceTick(t, id) && t.view[id].state == s.view[id].state
  {
    MergedKeeps(self, s.view, message, id);
    NewsKeepSince(self, s.since, s.tick.before, s.tick.news, message, id);
  }

  lemma NewsKeepSince(self: string, since: Dated, before: Dated, news: Dated, message: Message, id: string)
    requires id in since && id in before
    ensures id in WithAll(self, since, message)
    ensures since[id] == before[id] + DatesOf(news, id) ==>
              WithAll(self, since, message)[id] == before[id] + DatesOf(WithAll(self, news, message), id)
  {
    WithAllAt(self, since, message, id);
    WithAllAt(self, news, message, id);
  }

  lemma MergedKeeps(self: string, v: View, message: Message, id: string)
    requires id in v
    ensures var m := Merged(self, v, message); id in m && m[id].state == v[id].state && v[id].heartbeat <= m[id].heartbeat
  {
  }

  lemma WithAllAt(self: string, d: Dated, message: Message, id: string)
    ensures DatesOf(WithAll(self, d, message), id) == DatesOf(d, id) + Gossiped(self, message, id)
    ensures id in WithAll(self, d, message) <==> id in d || (id in message && id != self)
  {
  }

  /** A check is not disturbed by what leaves its member's state alone. */
  lemma SameCheckOk(l: Timeouts, self: string, s: State, t: State)
    requires IsChecking(s) && CheckOk(l, self, s) && t.tick.Ticking? && t.tick.check == s.tick.check
    requires t.tick.at == s.tick.at && t.tick.before == s.tick.before && t.tick.refreshed == s.tick.refreshed
    requires SinceTick(t, s.tick.check.id) && t.view[s.tick.check.id].state == s.view[s.tick.check.id].state
    ensures CheckOk(l, self, t)
  {
  }

  lemma ReceiveKeepsCheckOk(l: Timeouts, self: string, s: State, at: int, message: Message)
    requires Tracks(s) && Enabled(s, Receive(at, message)) && IsChecking(s) && CheckOk(l, self, s)
    ensures CheckOk(l, self, Step(l, self, s, Receive(at, message)))
  {
    ReceiveKeepsSince(l, self, s, at, message, s.tick.check.id);
    SameCheckOk(l, self, s, Step(l, self, s, Receive(at, message)));
  }

  lemma ReceiveKeepsSeenOk(l: Timeouts, self: string, s: State, at: int, message: Message, seen: Seen)
    requires Tracks(s) && Enabled(s, Receive(at, message)) && s.tick.Ticking? && SeenOk(s, seen)
    ensures SeenOk(Step(l, self, s, Receive(at, message)), seen)
  {
    ReceiveKeepsSince(l, self, s, at, message, seen.id);
  }

  lemma ReceiveKeepsTickOk(l: Timeouts, self: string, s: State, at: int, message: Message)
    requires Inv(l, self, s) && Enabled(s, Receive(at, message))
    ensures TickOk(l, self, Step(l, self, s, Receive(at, message)))
  {
    var t := Step(l, self, s, Receive(at, message));
    if s.tick.Ticking? {
      forall i | 0 <= i < |t.tick.rest|
        ensures SeenOk(t, t.tick.rest[i])
      {
        ReceiveKeepsSeenOk(l, self, s, at, message, s.tick.rest[i]);
      }
      if s.tick.check.Checking? { ReceiveKeepsCheckOk(l, self, s, at, message); }
    }
  }

  /** A heartbeat leaves others alone and refreshes its sender. */
  lemma BeatKeepsTickOk(l: Timeouts, self: string, s: State, id: string, at: int, receiver: Receiver, calls: seq<Change>)
    requires Tracks(s) && TickOk(l, self, s) && id in s.view && s.now <= at
    ensures TickOk(l, self, Beat(s, id, at).(receiver := receiver, calls := calls))
  {
    var t := Beat(s, id, at).(receiver := receiver, calls := calls);
    if s.tick.Ticking? {
      forall i | 0 <= i < |s.tick.rest|
        ensures SeenOk(t, s.tick.rest[i])
      {
        assert SeenOk(s, s.tick.rest[i]);
      }
    }
  }

  lemma BeginKeepsTickOk(l: Timeouts, self: string, s: State, at: int, order: seq<string>)
    requires Inv(l, self, s) && Enabled(s, BeginTick(at, order))
    ensures TickOk(l, self, Step(l, self, s, BeginTick(at, order)))
  {
    var t := Step(l, self, s, BeginTick(at, order));
    NoRepeatsMeans(order);
    forall i | 0 <= i < |order|
      ensures SeenOk(t, t.tick.rest[i])
    {
      assert order[i] in (set id | id in order);
    }
  }

  lemma ReadKeepsTickOk(l: Timeouts, self: string, s: State)
    requires Inv(l, self, s) && Enabled(s, ReadState)
    ensures TickOk(l, self, Step(l, self, s, ReadState))
  {
    var t, head := Step(l, self, s, ReadState), s.tick.rest[0];
    assert SeenOk(s, head);
    forall i | 0 <= i < |t.tick.rest|
      ensures SeenOk(t, t.tick.rest[i]) && t.tick.rest[i].id != head.id
    {
      assert t.tick.rest[i] == s.tick.rest[i + 1];
      assert SeenOk(s, s.tick.rest[i + 1]);
    }
  }

  /** Steps of a check that leave the view alone. */
  lemma CheckKeepsTickOk(l: Timeouts, self: string, s: State, a: Action)
    requires Inv(l, self, s) && Enabled(s, a) && (a.Look? || a.Compare? || a.Notify?)
    ensures TickOk(l, self, Step(l, self, s, a))
  {
    var t := Step(l, self, s, a);
    forall i | 0 <= i < |t.tick.rest|
      ensures SeenOk(t, t.tick.rest[i])
    {
      assert SeenOk(s, s.tick.rest[i]);
    }
  }

  lemma CarryOutKeepsTickOk(l: Timeouts, self: string, s: State)
    requires Inv(l, self, s) && Enabled(s, CarryOut)
    ensures TickOk(l, self, Step(l, self, s, CarryOut))
  {
    var t := Step(l, self, s, CarryOut);
    forall i | 0 <= i < |t.tick.rest|
      ensures SeenOk(t, t.tick.rest[i])
    {
      assert SeenOk(s, s.tick.rest[i]);
    }
  }

  lemma StepKeepsTickOk(l: Timeouts, self: string, s: State, a: Action)
    requires Inv(l, self, s) && Enabled(s, a)
    ensures TickOk(l, self, Step(l, self, s, a))
  {
    match a
    case Receive(at, message) => ReceiveKeepsTickOk(l, self, s, at, message);
    case HeartbeatRecords(at) => BeatKeepsTickOk(l, self, s, s.receiver.id, at, Step(l, self, s, a).receiver, s.calls);
    case HeartbeatRevives(at) => RevivalKeepsTickOk(l, self, s, s.receiver.id, at, Idle);
    case Revive(at, id) => RevivalKeepsTickOk(l, self, s, id, at, Step(l, self, s, a).receiver);
    case BeginTick(at, order) => BeginKeepsTickOk(l, self, s, at, order);
    case ReadState => ReadKeepsTickOk(l, self, s);
    case CarryOut => CarryOutKeepsTickOk(l, self, s);
    case Look => CheckKeepsTickOk(l, self, s, a);
    case Compare => CheckKeepsTickOk(l, self, s, a);
    case Notify => CheckKeepsTickOk(l, self, s, a);
    case _ =>
  }

  lemma RevivalKeepsTickOk(l: Timeouts, self: string, s: State, id: string, at: int, receiver: Receiver)
    requires Tracks(s) && TickOk(l, self, s) && s.now <= at
    ensures TickOk(l, self, Revival(s, id, at).(receiver := receiver))
  {
    if id in s.view && !s.view[id].state.NodeAlive? {
      BeatKeepsTickOk(l, self, s, id, at, receiver, s.calls + RevivalCalls(s.view, id));
    }
  }

  lemma StartKeepsInv(l: Timeouts, self: string, start: int)
    ensures Inv(l, self, Start(self, start))
  {
  }

  // ----------------------------------------------------------------- whole runs

  ghost predicate IsRun(l: Timeouts, self: string, start: int, run: seq<Action>)
    decreases |run|, 0
  {
    run == [] || (IsRun(l, self, start, Init(run)) && Enabled(Before(l, self, start, run), Last(run)))
  }

  function Init(run: seq<Action>): seq<Action>
    requires run != []
  {
    run[..|run| - 1]
  }

  function Last(run: seq<Action>): Action
    requires run != []
  {
    run[|run| - 1]
  }

  ghost function StateAfter(l: Timeouts, self: string, start: int, run: seq<Action>): State
    requires IsRun(l, self, start, run)
    decreases |run|, 1
  {
    if run == [] then Start(self, start) else Step(l, self, Before(l, self, start, run), Last(run))
  }

  /** The state before the last step of a run. */
  ghost function Before(l: Timeouts, self: string, start: int, run: seq<Action>): State
    requires run != [] && IsRun(l, self, start, Init(run))
    decreases |run| - 1, 2
  {
    StateAfter(l, self, start, Init(run))
  }

  lemma StepKeepsInv(l: Timeouts, self: string, s: State, a: Action)
    requires Inv(l, self, s) && Enabled(s, a)
    ensures Inv(l, self, Step(l, self, s, a))
  {
    StepKeepsTracks(l, self, s, a);
    StepKeepsTickOk(l, self, s, a);
    StepKeepsReceiverOk(l, self, s, a);
  }

  /** In every run, gossip from the future or not, each heartbeat is the greatest date since the member's last heartbeat. */
  lemma {:induction false} RunKeepsInv(l: Timeouts, self: string, start: int, run: seq<Action>)
    requires IsRun(l, self, start, run)
    ensures Inv(l, self, StateAfter(l, self, start, run))
  {
    if run == [] {
      StartKeepsInv(l, self, start);
    } else {
      RunKeepsInv(l, self, start, Init(run));
      StepKeepsInv(l, self, Before(l, self, start, run), Last(run));
    }
  }

  /** This node never leaves its own list. */
  lemma {:induction false} SelfStays(l: Timeouts, self: string, start: int, run: seq<Action>)
    requires IsRun(l, self, start, run)
    ensures self in StateAfter(l, self, start, run).view
  {
    if run != [] {
      SelfStays(l, self, start, Init(run));
      SelfStaysOnce(l, self, Before(l, self, start, run), Last(run));
    }
  }

  lemma SelfStaysOnce(l: Timeouts, self: string, s: State, a: Action)
    requires Enabled(s, a) && self in s.view
    ensures self in Step(l, self, s, a).view
  {
  }

  /** A known member's address changes only by gossip that is newer, or by being added again. */
  lemma StepKeepsAddress(l: Timeouts, self: string, s: State, a: Action, id: string)
    requires Enabled(s, a) && id in s.view && id in Step(l, self, s, a).view
    ensures Step(l, self, s, a).view[id].address ==
            match a
            case Receive(_, m) => if id in m && id != self && m[id].lastSeen > s.view[id].heartbeat then m[id].address else s.view[id].address
            case Add(_, other, _, address) => if other == id then address else s.view[id].address
            case _ => s.view[id].address
  {
  }

  // --------------------------------------------------- when heartbeats are greatest

  ghost predicate AllGreatest(s: State) {
    s.heard.Keys == s.view.Keys && forall id :: id in s.view ==> IsGreatest(s.heard[id], s.view[id].heartbeat)
  }

  /** The member that the step dates by this node's own clock. */
  predicate Stamps(s: State, a: Action, id: string) {
    match a
    case HeartbeatRecords(_) => s.receiver.Noted? && s.receiver.id == id
    case HeartbeatRevives(_) => s.receiver.Recording? && s.receiver.id == id && id in s.view && !s.view[id].state.NodeAlive?
    case Revive(_, other) => other == id && id in s.view && !s.view[id].state.NodeAlive?
    case Add(_, other, _, _) => other == id
    case _ => false
  }

  /** The step dates a member that gossip dated later. */
  ghost predicate TakesBack(s: State, a: Action) {
    exists id :: id in s.view && Stamps(s, a, id) && a.at < s.view[id].heartbeat
  }

  /** A step leaves a member's dates alone, adds gossip to them, or dates it by the clock. */
  lemma StepOnDates(l: Timeouts, self: string, s: State, a: Action, id: string)
    requires ReceiverOk(s) && s.heard.Keys == s.view.Keys && Enabled(s, a) && id in Step(l, self, s, a).view
    requires a.CarryOut? ==> !s.tick.check.stage.to.NodeAlive?
    ensures var t := Step(l, self, s, a);
            && id in t.heard
            && (Stamps(s, a, id) ==> t.view[id].heartbeat == a.at && t.heard[id] == DatesOf(s.heard, id) + {a.at})
            && (!Stamps(s, a, id) && a.Receive? ==>
                  t.view[id] == Merged(self, s.view, a.message)[id] && t.heard[id] == DatesOf(s.heard, id) + Gossiped(self, a.message, id))
            && (!Stamps(s, a, id) && !a.Receive? ==>
                  id in s.view && t.view[id].heartbeat == s.view[id].heartbeat && t.heard[id] == s.heard[id])
  {
  }

  lemma StepKeepsGreatest(l: Timeouts, self: string, s: State, a: Action)
    requires Inv(l, self, s) && AllGreatest(s) && Enabled(s, a) && !TakesBack(s, a)
    ensures AllGreatest(Step(l, self, s, a))
  {
    var t := Step(l, self, s, a);
    StaleIsNotAlive(l, self, s, a);
    StepKeepsKeys(l, self, s, a);
    forall id | id in t.view
      ensures IsGreatest(t.heard[id], t.view[id].heartbeat)
    {
      assert id in s.view && Stamps(s, a, id) ==> s.view[id].heartbeat <= a.at;
      StepKeepsGreatestOf(l, self, s, a, id);
    }
  }

  lemma StepKeepsGreatestOf(l: Timeouts, self: string, s: State, a: Action, id: string)
    requires ReceiverOk(s) && s.heard.Keys == s.view.Keys && Enabled(s, a) && id in Step(l, self, s, a).view
    requires a.CarryOut? ==> !s.tick.check.stage.to.NodeAlive?
    requires id in s.view ==> IsGreatest(s.heard[id], s.view[id].heartbeat) && (Stamps(s, a, id) ==> s.view[id].heartbeat <= a.at)
    ensures var t := Step(l, self, s, a); id in t.heard && IsGreatest(t.heard[id], t.view[id].heartbeat)
  {
    StepOnDates(l, self, s, a, id);
  }

  lemma StaleIsNotAlive(l: Timeouts, self: string, s: State, a: Action)
    requires Inv(l, self, s) && Enabled(s, a)
    ensures a.CarryOut? ==> !s.tick.check.stage.to.NodeAlive?
  {
  }

  lemma StepKeepsKeys(l: Timeouts, self: string, s: State, a: Action)
    requires ReceiverOk(s) && s.heard.Keys == s.view.Keys && Enabled(s, a)
    ensures Step(l, self, s, a).heard.Keys == Step(l, self, s, a).view.Keys
  {
  }

  lemma TakingBackShows(l: Timeouts, self: string, s: State, a: Action)
    requires ReceiverOk(s) && AllGreatest(s) && Enabled(s, a) && TakesBack(s, a)
    ensures !AllGreatest(Step(l, self, s, a))
  {
    var id :| id in s.view && Stamps(s, a, id) && a.at < s.view[id].heartbeat;
    var t := Step(l, self, s, a);
    assert id in t.view && t.view[id].heartbeat == a.at && s.view[id].heartbeat in t.heard[id];
  }

  ghost predicate AlwaysGreatest(l: Timeouts, self: string, start: int, run: seq<Action>)
    requires IsRun(l, self, start, run)
  {
    AllGreatest(StateAfter(l, self, start, run)) && (run == [] || AlwaysGreatest(l, self, start, Init(run)))
  }

  ghost predicate NeverTakesBack(l: Timeouts, self: string, start: int, run: seq<Action>)
    requires IsRun(l, self, start, run)
  {
    run == [] || (NeverTakesBack(l, self, start, Init(run)) && !TakesBack(Before(l, self, start, run), Last(run)))
  }

  /** Throughout a run each heartbeat is the greatest date ever heard, exactly when no step takes a later date back. */
  lemma {:induction false} GreatestExactly(l: Timeouts, self: string, start: int, run: seq<Action>)
    requires IsRun(l, self, start, run)
    ensures AlwaysGreatest(l, self, start, run) <==> NeverTakesBack(l, self, start, run)
  {
    if run == [] {
      assert AllGreatest(Start(self, start));
    } else {
      GreatestExactly(l, self, start, Init(run));
      var s := Before(l, self, start, run);
      RunKeepsInv(l, self, start, Init(run));
      if AlwaysGreatest(l, self, start, Init(run)) {
        AlwaysNow(l, self, start, Init(run));
        if TakesBack(s, Last(run)) { TakingBackShows(l, self, s, Last(run)); } else { StepKeepsGreatest(l, self, s, Last(run)); }
      }
    }
  }

  lemma AlwaysNow(l: Timeouts, self: string, start: int, run: seq<Action>)
    requires IsRun(l, self, start, run) && AlwaysGreatest(l, self, start, run)
    ensures AllGreatest(StateAfter(l, self, start, run))
  {
  }

  /** Gossip about other nodes is not dated in the future. */
  predicate Timely(self: string, a: Action) {
    a.Receive? ==> forall id :: id in a.message && id != self ==> a.message[id].lastSeen <= a.at
  }

  predicate TimelyRun(self: string, run: seq<Action>) { forall i :: 0 <= i < |run| ==> Timely(self, run[i]) }

  ghost predicate NotAhead(s: State) { forall id :: id in s.view ==> s.view[id].heartbeat <= s.now }

  lemma StepNotAhead(l: Timeouts, self: string, s: State, a: Action)
    requires ReceiverOk(s) && NotAhead(s) && Enabled(s, a) && Timely(self, a)
    ensures NotAhead(Step(l, self, s, a)) && !TakesBack(s, a)
  {
    var t := Step(l, self, s, a);
    forall id | id in t.view
      ensures t.view[id].heartbeat <= t.now
    {
      NotAheadOf(l, self, s, a, id);
    }
  }

  lemma NotAheadOf(l: Timeouts, self: string, s: State, a: Action, id: string)
    requires Enabled(s, a) && Timely(self, a) && id in Step(l, self, s, a).view
    requires id in s.view ==> s.view[id].heartbeat <= s.now
    ensures Step(l, self, s, a).view[id].heartbeat <= Step(l, self, s, a).now
  {
  }

  /** With gossip that is not from the future no step takes a date back. */
  lemma {:induction false} TimelyNeverTakesBack(l: Timeouts, self: string, start: int, run: seq<Action>)
    requires IsRun(l, self, start, run) && TimelyRun(self, run)
    ensures NeverTakesBack(l, self, start, run) && NotAhead(StateAfter(l, self, start, run))
  {
    if run == [] {
    } else {
      assert forall i :: 0 <= i < |run| - 1 ==> Init(run)[i] == run[i];
      TimelyNeverTakesBack(l, self, start, Init(run));
      RunKeepsInv(l, self, start, Init(run));
      StepNotAhead(l, self, Before(l, self, start, run), Last(run));
    }
  }
}
