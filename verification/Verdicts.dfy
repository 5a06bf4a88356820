/** When exactly a node is marked dead in a run, what is lost on the way, and what the callback reports. */
module Verdicts {
  import opened Gossip
  import opened Detection

  // ------------------------------------------------------------ when nodes are dead

  predicate BecomesDead(v: View, v': View, id: string) {
    id in v && id in v' && !v[id].state.NodeDead? && v'[id].state.NodeDead?
  }

  predicate DecidesDeath(c: Check, id: string) { c.Checking? && c.id == id && c.stage.Decided? && c.stage.to.NodeDead? }

  /**
   * A look decides that a node is dead exactly when the node is another one, suspect, and everything
   * heard of it before the tick, since its last heartbeat, is older than the timeout.
   */
  lemma DeathDecidedExactly(l: Timeouts, self: string, start: int, run: seq<Action>, id: string)
    requires IsRun(l, self, start, run) && Enabled(StateAfter(l, self, start, run), Look)
    ensures var s := StateAfter(l, self, start, run);
            DecidesDeath(Step(l, self, s, Look).tick.check, id) <==>
            && s.tick.check.id == id && id != self && id in s.view && s.view[id].state.NodeSuspect?
            && id in s.tick.before && AllOlder(s.tick.before[id], s.tick.at, l.dead)
  {
    RunKeepsInv(l, self, start, run);
    DecidedAtLook(l, self, StateAfter(l, self, start, run), id);
  }

  lemma DecidedAtLook(l: Timeouts, self: string, s: State, id: string)
    requires Enabled(s, Look) && CheckOk(l, self, s)
    ensures DecidesDeath(Step(l, self, s, Look).tick.check, id) <==>
            && s.tick.check.id == id && id != self && id in s.view && s.view[id].state.NodeSuspect?
            && id in s.tick.before && AllOlder(s.tick.before[id], s.tick.at, l.dead)
  {
    OlderThanGreatest(s.tick.before[s.tick.check.id], s.tick.check.heartbeat, s.tick.at, l.dead);
  }

  lemma OlderThanGreatest(dates: set<int>, d: int, at: int, limit: int)
    requires IsGreatest(dates, d)
    ensures AllOlder(dates, at, limit) <==> at - d > limit
  {
  }

  /** In a run that never took a date back, that is everything ever heard of the node before the tick. */
  lemma {:induction false} PastIsOlder(l: Timeouts, self: string, start: int, run: seq<Action>, id: string)
    requires IsRun(l, self, start, run) && NeverTakesBack(l, self, start, run)
    requires var s := StateAfter(l, self, start, run); s.tick.Ticking? && id in s.tick.before
    ensures var s := StateAfter(l, self, start, run);
            id in s.tick.past && (AllOlder(s.tick.before[id], s.tick.at, l.dead) <==> AllOlder(s.tick.past[id], s.tick.at, l.dead))
  {
    var s := Before(l, self, start, run);
    if Last(run).BeginTick? {
      GreatestExactly(l, self, start, Init(run));
      AlwaysNow(l, self, start, Init(run));
      RunKeepsInv(l, self, start, Init(run));
      assert id in s.view;
      assert IsGreatest(s.since[id], s.view[id].heartbeat) && IsGreatest(s.heard[id], s.view[id].heartbeat);
    } else {
      TickStep(l, self, s, Last(run));
      PastIsOlder(l, self, start, Init(run), id);
    }
  }

  /** Within a tick only news are added to what the detector goes by. */
  lemma TickStep(l: Timeouts, self: string, s: State, a: Action)
    requires Enabled(s, a) && !a.BeginTick? && Step(l, self, s, a).tick.Ticking?
    ensures var t := Step(l, self, s, a).tick;
            && s.tick.Ticking? && t.at == s.tick.at && t.before == s.tick.before && t.past == s.tick.past
            && t.news == if a.Receive? then WithAll(self, s.tick.news, a.message) else s.tick.news
  {
  }

  /** A known member becomes dead exactly when such a decision is carried out, or when it is added as dead. */
  lemma DeadExactlyWhen(l: Timeouts, self: string, start: int, run: seq<Action>, a: Action, id: string)
    requires IsRun(l, self, start, run) && Enabled(StateAfter(l, self, start, run), a)
    ensures var s := StateAfter(l, self, start, run);
            BecomesDead(s.view, Step(l, self, s, a).view, id) <==>
            || (a.CarryOut? && DecidesDeath(s.tick.check, id))
            || (a.Add? && a.id == id && a.state.NodeDead? && id in s.view && !s.view[id].state.NodeDead?)
  {
    RunKeepsInv(l, self, start, run);
    DeathStep(l, self, StateAfter(l, self, start, run), a, id);
  }

  lemma DeathStep(l: Timeouts, self: string, s: State, a: Action, id: string)
    requires ReceiverOk(s) && Enabled(s, a)
    requires a.CarryOut? ==> CheckOk(l, self, s)
    ensures BecomesDead(s.view, Step(l, self, s, a).view, id) <==>
            || (a.CarryOut? && DecidesDeath(s.tick.check, id))
            || (a.Add? && a.id == id && a.state.NodeDead? && id in s.view && !s.view[id].state.NodeDead?)
  {
  }

  /** A dead member comes back only by a heartbeat, a revival or being added again. */
  lemma DeadStaysDead(l: Timeouts, self: string, start: int, run: seq<Action>, a: Action, id: string)
    requires IsRun(l, self, start, run) && Enabled(StateAfter(l, self, start, run), a)
    requires id in StateAfter(l, self, start, run).view && StateAfter(l, self, start, run).view[id].state.NodeDead?
    ensures var s := StateAfter(l, self, start, run);
            var v' := Step(l, self, s, a).view;
            && (id !in v' ==> a == Remove(id))
            && (id in v' && !v'[id].state.NodeDead? ==> Stamps(s, a, id))
  {
    RunKeepsInv(l, self, start, run);
    DeadStep(l, self, StateAfter(l, self, start, run), a, id);
  }

  lemma DeadStep(l: Timeouts, self: string, s: State, a: Action, id: string)
    requires ReceiverOk(s) && Enabled(s, a) && id in s.view && s.view[id].state.NodeDead?
    requires a.CarryOut? ==> CheckOk(l, self, s)
    ensures var v' := Step(l, self, s, a).view;
            && (id !in v' ==> a == Remove(id))
            && (id in v' && !v'[id].state.NodeDead? ==> Stamps(s, a, id))
  {
  }

  // what a check finds when its member sends heartbeats

  /** The member was dated by this node's clock since the last step that `mark` holds of. */
  ghost predicate BeatSince(l: Timeouts, self: string, start: int, run: seq<Action>, id: string, mark: Action -> bool)
    requires IsRun(l, self, start, run)
  {
    run != [] && !mark(Last(run)) && (Stamps(Before(l, self, start, run), Last(run), id) || BeatSince(l, self, start, Init(run), id, mark))
  }

  ghost predicate BeatSinceRead(l: Timeouts, self: string, start: int, run: seq<Action>, id: string)
    requires IsRun(l, self, start, run)
  {
    BeatSince(l, self, start, run, id, (a: Action) => a.ReadState?)
  }

  ghost predicate BeatSinceLook(l: Timeouts, self: string, start: int, run: seq<Action>, id: string)
    requires IsRun(l, self, start, run)
  {
    BeatSince(l, self, start, run, id, (a: Action) => a.Look?)
  }

  ghost predicate BeatSinceCarryOut(l: Timeouts, self: string, start: int, run: seq<Action>, id: string)
    requires IsRun(l, self, start, run)
  {
    BeatSince(l, self, start, run, id, (a: Action) => a.CarryOut?)
  }

  /**
   * The state of the member being checked, from the actions of the run alone: alive if it sent a
   * heartbeat since its state was first read, since the look, or since a transition was carried out,
   * and otherwise what was read or written then.
   */
  lemma {:induction false} StateFoundExactly(l: Timeouts, self: string, start: int, run: seq<Action>)
    requires IsRun(l, self, start, run) && IsChecking(StateAfter(l, self, start, run))
    ensures var s := StateAfter(l, self, start, run); var c := s.tick.check; var state := StateOf(s.view, c.id);
            && (!Carried(c) ==> state == if BeatSinceRead(l, self, start, run, c.id) then NodeAlive else c.first)
            && (c.stage.Decided? ==> state == if BeatSinceLook(l, self, start, run, c.id) then NodeAlive else c.stage.from)
            && (Carried(c) ==> state == if BeatSinceCarryOut(l, self, start, run, c.id) then NodeAlive else c.stage.to)
  {
    var s, a := Before(l, self, start, run), Last(run);
    if a.ReadState? {
    } else {
      RunKeepsInv(l, self, start, Init(run));
      CheckGoesOn(l, self, s, a);
      StateChanges(l, self, s, a, s.tick.check.id);
      StateFoundExactly(l, self, start, Init(run));
    }
  }

  /** A check stays with its member, and its stage changes only by its own steps. */
  lemma CheckGoesOn(l: Timeouts, self: string, s: State, a: Action)
    requires Enabled(s, a) && !a.ReadState? && IsChecking(Step(l, self, s, a))
    ensures IsChecking(s)
    ensures var c, c' := s.tick.check, Step(l, self, s, a).tick.check;
            c' == match a
                  case Look => c.(stage := Decision(l, StateOf(s.view, c.id), s.tick.at - c.heartbeat))
                  case CarryOut => c.(stage := Settled(c.stage.from, c.stage.to))
                  case Compare => c.(stage := Differing(c.stage.from, c.stage.to))
                  case _ => c
  {
  }

  /** During a tick only a heartbeat or the carrying out changes a member's state. */
  lemma StateChanges(l: Timeouts, self: string, s: State, a: Action, id: string)
    requires ReceiverOk(s) && Enabled(s, a) && s.tick.Ticking? && id in s.view
    ensures StateOf(Step(l, self, s, a).view, id) ==
            if a.CarryOut? && s.tick.check.id == id then s.tick.check.stage.to
            else if Stamps(s, a, id) then NodeAlive else StateOf(s.view, id)
  {
  }

  // a heartbeat between look and carrying out is lost

  /**
   * When a node is marked dead it is alive, having sent a heartbeat that is lost, exactly when it
   * sent one between the detector's look and the carrying out; a heartbeat earlier in the tick saves it.
   */
  lemma HeartbeatLostExactly(l: Timeouts, self: string, start: int, run: seq<Action>, id: string)
    requires IsRun(l, self, start, run)
    requires var s := StateAfter(l, self, start, run); Enabled(s, CarryOut) && DecidesDeath(s.tick.check, id)
    ensures var s := StateAfter(l, self, start, run);
            && id in s.view
            && (s.view[id].state.NodeAlive? <==> BeatSinceLook(l, self, start, run, id))
            && (id in s.tick.refreshed <==> BeatSinceLook(l, self, start, run, id))
            && (s.view[id].state.NodeAlive? ==> s.tick.at <= s.view[id].heartbeat)
  {
    RunKeepsInv(l, self, start, run);
    StateFoundExactly(l, self, start, run);
  }

  // news during the tick come too late

  /** The messages received since the tick began. */
  ghost function MessagesSince(l: Timeouts, self: string, start: int, run: seq<Action>): seq<Message>
    requires IsRun(l, self, start, run)
  {
    if run == [] || Last(run).BeginTick? then []
    else
      var before := MessagesSince(l, self, start, Init(run));
      if Last(run).Receive? then before + [Last(run).message] else before
  }

  predicate Says(m: Message, id: string, at: int, limit: int) { id in m && at - m[id].lastSeen <= limit }

  /** Some message gave the node a date within the limit. */
  predicate SomeSays(messages: seq<Message>, id: string, at: int, limit: int) {
    exists m :: m in messages && Says(m, id, at, limit)
  }

  lemma SomeSaysSnoc(messages: seq<Message>, m: Message, id: string, at: int, limit: int)
    ensures SomeSays(messages + [m], id, at, limit) <==> SomeSays(messages, id, at, limit) || Says(m, id, at, limit)
  {
    if Says(m, id, at, limit) { assert m in messages + [m]; }
    if SomeSays(messages, id, at, limit) {
      var k :| k in messages && Says(k, id, at, limit);
      assert k in messages + [m];
    }
  }

  lemma {:induction false} NewsAreMessages(l: Timeouts, self: string, start: int, run: seq<Action>, id: string, at: int, limit: int)
    requires IsRun(l, self, start, run) && id != self && StateAfter(l, self, start, run).tick.Ticking?
    ensures SomeSays(MessagesSince(l, self, start, run), id, at, limit) <==>
            exists d :: d in DatesOf(StateAfter(l, self, start, run).tick.news, id) && at - d <= limit
  {
    if Last(run).BeginTick? {
    } else {
      TickStep(l, self, Before(l, self, start, run), Last(run));
      NewsAreMessages(l, self, start, Init(run), id, at, limit);
      if Last(run).Receive? {
        SomeSaysSnoc(MessagesSince(l, self, start, Init(run)), Last(run).message, id, at, limit);
        NewsSnoc(self, Before(l, self, start, run).tick.news, Last(run).message, id, at, limit);
      }
    }
  }

  lemma NewsSnoc(self: string, news: Dated, message: Message, id: string, at: int, limit: int)
    requires id != self
    ensures (exists d :: d in DatesOf(WithAll(self, news, message), id) && at - d <= limit) <==>
            (exists d :: d in DatesOf(news, id) && at - d <= limit) || Says(message, id, at, limit)
  {
    if Says(message, id, at, limit) { assert message[id].lastSeen in DatesOf(WithAll(self, news, message), id); }
    if d :| d in DatesOf(news, id) && at - d <= limit { assert d in DatesOf(WithAll(self, news, message), id); }
  }

  /**
   * When a node without a heartbeat since is marked dead, its date in the list is within the timeout
   * at the tick exactly when a message received since the tick began said so.
   */
  lemma GossipIgnoredExactly(l: Timeouts, self: string, start: int, run: seq<Action>, id: string)
    requires IsRun(l, self, start, run)
    requires var s := StateAfter(l, self, start, run);
             Enabled(s, CarryOut) && DecidesDeath(s.tick.check, id) && !BeatSinceLook(l, self, start, run, id)
    ensures var s := StateAfter(l, self, start, run);
            id in s.view && (s.tick.at - s.view[id].heartbeat <= l.dead <==> SomeSays(MessagesSince(l, self, start, run), id, s.tick.at, l.dead))
  {
    RunKeepsInv(l, self, start, run);
    HeartbeatLostExactly(l, self, start, run, id);
    var s := StateAfter(l, self, start, run);
    NewsAreMessages(l, self, start, run, id, s.tick.at, l.dead);
    assert IsGreatest(s.since[id], s.view[id].heartbeat);
  }

  // ------------------------------------------------- when the revival calls back

  /** A transition of the recorded member was carried out since it was recorded, and no revival came after. */
  ghost predicate OvertakenSince(l: Timeouts, self: string, start: int, run: seq<Action>, id: string)
    requires IsRun(l, self, start, run)
  {
    && run != [] && !Last(run).HeartbeatRecords?
    && var s := Before(l, self, start, run);
       if Last(run).CarryOut? && s.tick.check.id == id then true
       else if Last(run).Revive? && Stamps(s, Last(run), id) then false
       else OvertakenSince(l, self, start, Init(run), id)
  }

  lemma {:induction false} OvertakenExactly(l: Timeouts, self: string, start: int, run: seq<Action>)
    requires IsRun(l, self, start, run) && StateAfter(l, self, start, run).receiver.Recording?
    ensures var r := StateAfter(l, self, start, run).receiver; r.overtaken <==> OvertakenSince(l, self, start, run, r.id)
  {
    if Last(run).HeartbeatRecords? {
    } else {
      OvertakenStep(l, self, Before(l, self, start, run), Last(run));
      OvertakenExactly(l, self, start, Init(run));
    }
  }

  lemma OvertakenStep(l: Timeouts, self: string, s: State, a: Action)
    requires Enabled(s, a) && !a.HeartbeatRecords? && Step(l, self, s, a).receiver.Recording?
    ensures var r := Step(l, self, s, a).receiver;
            && s.receiver.Recording? && s.receiver.id == r.id
            && r.overtaken == if a.CarryOut? && s.tick.check.id == r.id then true
                              else if a.Revive? && Stamps(s, a, r.id) then false
                              else s.receiver.overtaken
  {
  }

  /**
   * The revival that follows a recorded heartbeat calls back exactly when a stale transition of the
   * same member was carried out in between; otherwise it does nothing at all.
   */
  lemma RevivalCallsBackExactly(l: Timeouts, self: string, start: int, run: seq<Action>, at: int)
    requires IsRun(l, self, start, run) && Enabled(StateAfter(l, self, start, run), HeartbeatRevives(at))
    ensures var s := StateAfter(l, self, start, run); var t := Step(l, self, s, HeartbeatRevives(at));
            && (t.calls != s.calls <==> OvertakenSince(l, self, start, run, s.receiver.id))
            && (t.calls == s.calls ==> t.view == s.view)
  {
    RunKeepsInv(l, self, start, run);
    OvertakenExactly(l, self, start, run);
  }

  // -------------------------------------------------- what a tick's callback reports

  /** A check that carried a transition out calls back unless the state is again the one it read first. */
  predicate Unreported(c: Check, beat: bool) {
    Carried(c) && c.stage.to.NodeSuspect? && (if beat then c.first.NodeAlive? else c.first.NodeSuspect?)
  }

  /**
   * A transition that was carried out is not reported exactly when it made the member suspect and
   * either the member was alive at first and sent a heartbeat since, or it was suspect at first, came
   * back before the look and sent none since. Marking a member dead is always followed by a call.
   */
  lemma CallbackLostExactly(l: Timeouts, self: string, start: int, run: seq<Action>)
    requires IsRun(l, self, start, run)
    requires var s := StateAfter(l, self, start, run); Enabled(s, Compare) && Carried(s.tick.check)
    ensures var s := StateAfter(l, self, start, run); var c := s.tick.check;
            Step(l, self, s, Compare).tick.check.NoCheck? <==> Unreported(c, BeatSinceCarryOut(l, self, start, run, c.id))
  {
    RunKeepsInv(l, self, start, run);
    StateFoundExactly(l, self, start, run);
  }

  /** The call reports the transition exactly when no heartbeat came since, and the decision was read from the first state. */
  lemma CallbackWrongExactly(l: Timeouts, self: string, start: int, run: seq<Action>)
    requires IsRun(l, self, start, run)
    requires var s := StateAfter(l, self, start, run); Enabled(s, Notify) && Carried(s.tick.check)
    ensures var s := StateAfter(l, self, start, run); var c := s.tick.check;
            && Step(l, self, s, Notify).calls ==
               s.calls + [Change(c.id, c.first, if BeatSinceCarryOut(l, self, start, run, c.id) then NodeAlive else c.stage.to)]
            && (Step(l, self, s, Notify).calls[|s.calls|] == Change(c.id, c.stage.from, c.stage.to) <==>
                c.first == c.stage.from && !BeatSinceCarryOut(l, self, start, run, c.id))
            && (c.stage.from.NodeSuspect? ==> c.first.NodeSuspect?)
  {
    RunKeepsInv(l, self, start, run);
    StateFoundExactly(l, self, start, run);
  }

  /** A check that carried nothing out calls back all the same exactly when its member was not alive at first and sent a heartbeat since. */
  lemma CallbackUncalledForExactly(l: Timeouts, self: string, start: int, run: seq<Action>)
    requires IsRun(l, self, start, run)
    requires var s := StateAfter(l, self, start, run); Enabled(s, Compare) && !Carried(s.tick.check)
    ensures var s := StateAfter(l, self, start, run); var c := s.tick.check;
            Step(l, self, s, Compare).tick.check.Checking? <==> !c.first.NodeAlive? && BeatSinceRead(l, self, start, run, c.id)
  {
    RunKeepsInv(l, self, start, run);
    StateFoundExactly(l, self, start, run);
  }
}
