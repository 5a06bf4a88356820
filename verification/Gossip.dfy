/** Membership by gossip and failure detection by silence: what a list of members means and how it changes. */
module Gossip {
  import opened Sequences

  datatype NodeState = NodeAlive | NodeSuspect | NodeDead

  /** What the list knows of a member; the object behind it is in `Membership`. */
  datatype Member = Member(state: NodeState, heartbeat: int, address: string)

  type View = map<string, Member>

  /** What a gossip message says of a node. */
  datatype Info = Info(address: string, state: string, lastSeen: int)

  type Message = map<string, Info>

  datatype Timeouts = Timeouts(suspect: int, dead: int)

  function StateName(s: NodeState): string {
    match s
    case NodeAlive => "alive"
    case NodeSuspect => "suspect"
    case NodeDead => "dead"
  }

  function ParseState(name: string): NodeState {
    if name == "suspect" then NodeSuspect else if name == "dead" then NodeDead else NodeAlive
  }

  // ------------------------------------------------------------------ operations

  /** A new list knows only its own node. */
  function Alone(self: string, now: int): View { map[self := Member(NodeAlive, now, "")] }

  /** A new member is taken as described; a known one only gets a newer heartbeat and its address. */
  function Joined(v: View, id: string, info: Info): Member {
    if id !in v then Member(ParseState(info.state), info.lastSeen, info.address)
    else if info.lastSeen > v[id].heartbeat then v[id].(heartbeat := info.lastSeen, address := info.address)
    else v[id]
  }

  function Merged(self: string, v: View, message: Message): View {
    map id | id in v.Keys + (message.Keys - {self}) :: if id in message && id != self then Joined(v, id, message[id]) else v[id]
  }

  function Recorded(v: View, id: string, now: int): View {
    if id in v then v[id := v[id].(state := NodeAlive, heartbeat := now)] else v
  }

  function Updated(v: View, id: string, state: NodeState, now: int): View {
    if id in v then v[id := v[id].(state := state, heartbeat := if state.NodeAlive? then now else v[id].heartbeat)] else v
  }

  /** One look of the detector at a member last heard of `elapsed` ago. */
  function NextState(l: Timeouts, s: NodeState, elapsed: int): NodeState {
    match s
    case NodeAlive => if elapsed > l.suspect then NodeSuspect else NodeAlive
    case NodeSuspect => if elapsed > l.dead then NodeDead else NodeSuspect
    case NodeDead => NodeDead
  }

  function Checked(l: Timeouts, v: View, id: string, elapsed: int): View {
    if id in v then v[id := v[id].(state := NextState(l, v[id].state, elapsed))] else v
  }

  /** A tick with nothing in between. */
  function Ticked(l: Timeouts, self: string, v: View, now: int): View {
    map id | id in v :: if id == self then v[id] else v[id].(state := NextState(l, v[id].state, now - v[id].heartbeat))
  }

  function ToGossip(v: View): Message { map id | id in v :: Info(v[id].address, StateName(v[id].state), v[id].heartbeat) }

  /** Somebody who knows nobody learns from a message exactly what its sender knew. */
  lemma GossipCarriesView(self: string, v: View)
    ensures Merged(self, map[], ToGossip(v)) == v - {self}
  {
    var r := Merged(self, map[], ToGossip(v));
    forall id | id in r
      ensures r[id] == v[id]
    {
      assert ParseState(StateName(v[id].state)) == v[id].state;
    }
  }

  // ------------------------------------------------------------ merging messages

  function MergedAll(self: string, v: View, messages: seq<Message>): View {
    if messages == [] then v else Merged(self, MergedAll(self, v, messages[..|messages| - 1]), messages[|messages| - 1])
  }

  /** All the dates known or gossiped for the node. */
  function Dates(v: View, messages: seq<Message>, id: string): set<int> {
    (if id in v then {v[id].heartbeat} else {}) + set i | 0 <= i < |messages| && id in messages[i] :: messages[i][id].lastSeen
  }

  predicate IsGreatest(dates: set<int>, d: int) { d in dates && forall e :: e in dates ==> e <= d }

  lemma DatesSnoc(v: View, messages: seq<Message>, id: string)
    requires messages != []
    ensures var last := messages[|messages| - 1];
            Dates(v, messages, id) == Dates(v, messages[..|messages| - 1], id) + if id in last then {last[id].lastSeen} else {}
  {
  }

  /** The merged heartbeat is the greatest date seen. */
  lemma {:induction false} HeartbeatIsGreatest(self: string, v: View, messages: seq<Message>, id: string)
    requires id != self
    ensures var r := MergedAll(self, v, messages);
            && (id in r <==> Dates(v, messages, id) != {})
            && (id in r ==> IsGreatest(Dates(v, messages, id), r[id].heartbeat))
  {
    if messages == [] {
    } else {
      HeartbeatIsGreatest(self, v, messages[..|messages| - 1], id);
      DatesSnoc(v, messages, id);
    }
  }

  /** So neither the order nor the repetition of messages matters for who is known and how recently heard of. */
  lemma OrderIrrelevant(self: string, v: View, messages: seq<Message>, others: seq<Message>, id: string)
    requires id != self && Dates(v, messages, id) == Dates(v, others, id)
    ensures var r, r' := MergedAll(self, v, messages), MergedAll(self, v, others);
            (id in r <==> id in r') && (id in r ==> r[id].heartbeat == r'[id].heartbeat)
  {
    HeartbeatIsGreatest(self, v, messages, id);
    HeartbeatIsGreatest(self, v, others, id);
  }

  /** Gossip alone never changes the state of a known member, whatever it says. */
  lemma {:induction false} GossipKeepsState(self: string, v: View, messages: seq<Message>, id: string)
    requires id != self && id in v
    ensures id in MergedAll(self, v, messages) && MergedAll(self, v, messages)[id].state == v[id].state
  {
    if messages == [] {
    } else {
      GossipKeepsState(self, v, messages[..|messages| - 1], id);
    }
  }

  /** Gossip never touches this node's own entry. */
  lemma {:induction false} GossipSparesSelf(self: string, v: View, messages: seq<Message>)
    ensures var r := MergedAll(self, v, messages); (self in r <==> self in v) && (self in v ==> r[self] == v[self])
  {
    if messages == [] {
    } else {
      GossipSparesSelf(self, v, messages[..|messages| - 1]);
    }
  }

  /** Any text that names no other state is read as alive. */
  /** The first of the messages with the greatest date for the node. */
  predicate NewestAt(messages: seq<Message>, id: string, i: nat) {
    && i < |messages| && id in messages[i]
    && (forall j :: 0 <= j < |messages| && id in messages[j] ==> messages[j][id].lastSeen <= messages[i][id].lastSeen)
    && (forall j :: 0 <= j < i && id in messages[j] ==> messages[j][id].lastSeen < messages[i][id].lastSeen)
  }

  /** No message dates the node later than it was known to be. */
  predicate NothingNewer(messages: seq<Message>, id: string, heartbeat: int) {
    forall j :: 0 <= j < |messages| && id in messages[j] ==> messages[j][id].lastSeen <= heartbeat
  }

  /**
   * A node's address is that of the first message with the newest date, if that is newer than what was
   * known; otherwise it is what it was.
   */
  lemma {:induction false} AddressIsNewest(self: string, v: View, messages: seq<Message>, id: string)
    requires id != self && id in MergedAll(self, v, messages)
    ensures var r := MergedAll(self, v, messages)[id];
            if id in v && NothingNewer(messages, id, v[id].heartbeat) then r.address == v[id].address
            else exists i: nat :: NewestAt(messages, id, i) && r.address == messages[i][id].address && r.heartbeat == messages[i][id].lastSeen
  {
    if messages == [] {
    } else {
      var init, last := messages[..|messages| - 1], messages[|messages| - 1];
      HeartbeatIsGreatest(self, v, init, id);
      if id in MergedAll(self, v, init) {
        AddressIsNewest(self, v, init, id);
        DatesBelow(v, init, id, MergedAll(self, v, init)[id].heartbeat);
        AddressSnoc(self, v, init, last, id);
      } else {
        NobodyNamed(self, v, init, id);
        assert NewestAt(messages, id, |init|);
      }
      assert init + [last] == messages;
    }
  }

  lemma AddressSnoc(self: string, v: View, init: seq<Message>, last: Message, id: string)
    requires id != self && id in MergedAll(self, v, init)
    requires var r := MergedAll(self, v, init)[id];
             && (id in v ==> v[id].heartbeat <= r.heartbeat)
             && (forall j :: 0 <= j < |init| && id in init[j] ==> init[j][id].lastSeen <= r.heartbeat)
             && if id in v && NothingNewer(init, id, v[id].heartbeat) then r.address == v[id].address && r.heartbeat == v[id].heartbeat
                else exists i: nat :: NewestAt(init, id, i) && r.address == init[i][id].address && r.heartbeat == init[i][id].lastSeen
    ensures var messages := init + [last]; var r := Merged(self, MergedAll(self, v, init), last)[id];
            if id in v && NothingNewer(messages, id, v[id].heartbeat) then r.address == v[id].address
            else exists i: nat :: NewestAt(messages, id, i) && r.address == messages[i][id].address && r.heartbeat == messages[i][id].lastSeen
  {
    var messages, before := init + [last], MergedAll(self, v, init)[id];
    assert messages[|init|] == last && forall j :: 0 <= j < |init| ==> messages[j] == init[j];
    if id in last && last[id].lastSeen > before.heartbeat {
      assert NewestAt(messages, id, |init|);
    } else if !(id in v && NothingNewer(init, id, v[id].heartbeat)) {
      var i: nat :| NewestAt(init, id, i) && before.address == init[i][id].address && before.heartbeat == init[i][id].lastSeen;
      assert NewestAt(messages, id, i);
    }
  }

  lemma DatesBelow(v: View, messages: seq<Message>, id: string, d: int)
    requires IsGreatest(Dates(v, messages, id), d)
    ensures id in v ==> v[id].heartbeat <= d
    ensures forall j :: 0 <= j < |messages| && id in messages[j] ==> messages[j][id].lastSeen <= d
    ensures id in v && NothingNewer(messages, id, v[id].heartbeat) ==> d == v[id].heartbeat
  {
    forall j | 0 <= j < |messages| && id in messages[j]
      ensures messages[j][id].lastSeen <= d
    {
      assert messages[j][id].lastSeen in Dates(v, messages, id);
    }
  }

  lemma NobodyNamed(self: string, v: View, messages: seq<Message>, id: string)
    requires id != self && id !in MergedAll(self, v, messages)
    ensures id !in v && forall j :: 0 <= j < |messages| ==> id !in messages[j]
  {
    HeartbeatIsGreatest(self, v, messages, id);
    forall j | 0 <= j < |messages|
      ensures id !in messages[j]
    {
      if id in messages[j] { NamedIsKnown(self, v, messages, id, j); }
    }
  }

  lemma NamedIsKnown(self: string, v: View, messages: seq<Message>, id: string, j: nat)
    requires id != self && j < |messages| && id in messages[j]
    ensures id in MergedAll(self, v, messages)
  {
    HeartbeatIsGreatest(self, v, messages, id);
    assert messages[j][id].lastSeen in Dates(v, messages, id);
  }

  predicate Names(m: Message, id: string) { id in m }

  /** The first message that names the node, or the number of messages. */
  function FirstNaming(messages: seq<Message>, id: string): (i: nat)
    ensures i <= |messages| && (i < |messages| ==> Names(messages[i], id))
    ensures forall j :: 0 <= j < i ==> !Names(messages[j], id)
  {
    if messages == [] then 0
    else
      var i := FirstNaming(messages[..|messages| - 1], id);
      if i < |messages| - 1 || Names(messages[|messages| - 1], id) then i else |messages|
  }

  /** What the first message that names the node says of its state. */
  function FirstState(messages: seq<Message>, id: string): NodeState
    requires FirstNaming(messages, id) < |messages|
  {
    ParseState(messages[FirstNaming(messages, id)][id].state)
  }

  /** A new member is known iff some message named it, and its state is that of the first that did. */
  lemma {:induction false} StateIsFirstNamed(self: string, v: View, messages: seq<Message>, id: string)
    requires id != self && id !in v
    ensures var r := MergedAll(self, v, messages);
            && (id in r <==> FirstNaming(messages, id) < |messages|)
            && (id in r ==> r[id].state == FirstState(messages, id))
            && (id in r ==> var name := messages[FirstNaming(messages, id)][id].state;
                            (r[id].state.NodeSuspect? <==> name == "suspect") && (r[id].state.NodeDead? <==> name == "dead"))
  {
    if messages == [] {
    } else {
      StateIsFirstNamed(self, v, messages[..|messages| - 1], id);
    }
  }

  lemma HeadIsFirstNaming(head: Message, rest: seq<Message>, id: string)
    requires Names(head, id)
    ensures FirstNaming([head] + rest, id) == 0 && FirstState([head] + rest, id) == ParseState(head[id].state)
  {
    var i := FirstNaming([head] + rest, id);
    assert Names(([head] + rest)[0], id);
  }

  /** All messages that name the node tell the same state. */
  predicate Unanimous(messages: seq<Message>, id: string) {
    forall i, j :: 0 <= i < |messages| && 0 <= j < |messages| && Names(messages[i], id) && Names(messages[j], id) ==>
      ParseState(messages[i][id].state) == ParseState(messages[j][id].state)
  }

  ghost predicate SameStateInAnyOrder(self: string, v: View, messages: seq<Message>, id: string)
    requires id in MergedAll(self, v, messages)
  {
    forall others :: multiset(others) == multiset(messages) ==>
      id in MergedAll(self, v, others) && MergedAll(self, v, others)[id].state == MergedAll(self, v, messages)[id].state
  }

  lemma UnanimousInAnyOrder(self: string, v: View, messages: seq<Message>, id: string)
    requires id != self && id !in v && id in MergedAll(self, v, messages) && Unanimous(messages, id)
    ensures SameStateInAnyOrder(self, v, messages, id)
  {
    forall others | multiset(others) == multiset(messages)
      ensures id in MergedAll(self, v, others) && MergedAll(self, v, others)[id].state == MergedAll(self, v, messages)[id].state
    {
      StateIsFirstNamed(self, v, messages, id);
      StateIsFirstNamed(self, v, others, id);
      SameFirstState(messages, others, id);
    }
  }

  /** A message that disagrees with the first changes the outcome when it comes first itself. */
  lemma MovedToFront(self: string, v: View, messages: seq<Message>, id: string, k: nat) returns (others: seq<Message>)
    requires id != self && id !in v && k < |messages| && Names(messages[k], id)
    ensures multiset(others) == multiset(messages)
    ensures id in MergedAll(self, v, others) && MergedAll(self, v, others)[id].state == ParseState(messages[k][id].state)
  {
    others := [messages[k]] + (messages[..k] + messages[k + 1..]);
    assert messages == messages[..k] + [messages[k]] + messages[k + 1..];
    HeadIsFirstNaming(messages[k], messages[..k] + messages[k + 1..], id);
    StateIsFirstNamed(self, v, others, id);
  }

  lemma SomeoneDisagrees(messages: seq<Message>, id: string, state: NodeState) returns (k: nat)
    requires !Unanimous(messages, id)
    ensures k < |messages| && Names(messages[k], id) && ParseState(messages[k][id].state) != state
  {
    var i, j :| && 0 <= i < |messages| && 0 <= j < |messages| && Names(messages[i], id) && Names(messages[j], id)
                && ParseState(messages[i][id].state) != ParseState(messages[j][id].state);
    k := if ParseState(messages[i][id].state) == state then j else i;
  }

  /** The order of messages does not matter for a new member's state exactly when they are unanimous about it. */
  lemma StateOrderIrrelevant(self: string, v: View, messages: seq<Message>, id: string)
    requires id != self && id !in v && id in MergedAll(self, v, messages)
    ensures SameStateInAnyOrder(self, v, messages, id) <==> Unanimous(messages, id)
  {
    if Unanimous(messages, id) {
      UnanimousInAnyOrder(self, v, messages, id);
    } else {
      var k := SomeoneDisagrees(messages, id, MergedAll(self, v, messages)[id].state);
      var others := MovedToFront(self, v, messages, id, k);
    }
  }

  lemma SameFirstState(messages: seq<Message>, others: seq<Message>, id: string)
    requires Unanimous(messages, id) && FirstNaming(messages, id) < |messages| && multiset(others) == multiset(messages)
    ensures FirstNaming(others, id) < |others| && FirstState(others, id) == FirstState(messages, id)
  {
    var first := messages[FirstNaming(messages, id)];
    assert first in multiset(others);
    var k :| 0 <= k < |others| && others[k] == first;
    assert Names(others[k], id);
    assert others[FirstNaming(others, id)] in multiset(messages);
    var j :| 0 <= j < |messages| && messages[j] == others[FirstNaming(others, id)];
    assert Names(messages[j], id);
  }

  /** Two messages that disagree: the state depends on their order, the heartbeat does not. */
  lemma StateDependsOnOrder(self: string, id: string)
    requires id != self
    ensures var dead, alive := map[id := Info("", "dead", 1)], map[id := Info("", "alive", 2)];
            && MergedAll(self, map[], [dead, alive])[id].state == NodeDead
            && MergedAll(self, map[], [alive, dead])[id].state == NodeAlive
            && MergedAll(self, map[], [dead, alive])[id].heartbeat == MergedAll(self, map[], [alive, dead])[id].heartbeat == 2
  {
    var dead, alive := map[id := Info("", "dead", 1)], map[id := Info("", "alive", 2)];
    assert MergedAll(self, map[], [dead]) == Merged(self, map[], dead);
    assert MergedAll(self, map[], [alive]) == Merged(self, map[], alive);
    assert [dead, alive][..1] == [dead] && [alive, dead][..1] == [alive];
  }

  // --------------------------------------------------------------------- ticks

  /** The view when only the members in `done` were checked, with nothing in between. */
  ghost function TickedSome(l: Timeouts, self: string, v: View, now: int, done: set<string>): View {
    map id | id in v :: if id in done && id != self then v[id].(state := NextState(l, v[id].state, now - v[id].heartbeat)) else v[id]
  }

  ghost function TickedFirst(l: Timeouts, self: string, v: View, now: int, order: seq<string>, k: nat): View
    requires k <= |order|
  {
    TickedSome(l, self, v, now, Members(order[..k]))
  }

  lemma TickedNone(l: Timeouts, self: string, v: View, now: int, order: seq<string>)
    ensures TickedFirst(l, self, v, now, order, 0) == v
  {
  }

  lemma TickedWhole(l: Timeouts, self: string, v: View, now: int, order: seq<string>)
    requires Members(order) == v.Keys
    ensures TickedFirst(l, self, v, now, order, |order|) == Ticked(l, self, v, now)
  {
    assert order[..|order|] == order;
  }

  lemma CheckOneMore(l: Timeouts, self: string, v: View, now: int, done: set<string>, id: string)
    requires id in v && id !in done
    ensures var before := TickedSome(l, self, v, now, done);
            && id in before && before[id] == v[id]
            && TickedSome(l, self, v, now, done + {id}) == if id == self then before else Checked(l, before, id, now - v[id].heartbeat)
  {
  }

  lemma CheckNext(l: Timeouts, self: string, v: View, now: int, order: seq<string>, k: nat)
    requires NoRepeats(order) && k < |order| && order[k] in v
    ensures var id, before := order[k], TickedFirst(l, self, v, now, order, k);
            && id in before && before[id] == v[id]
            && TickedFirst(l, self, v, now, order, k + 1) == if id == self then before else Checked(l, before, id, now - v[id].heartbeat)
  {
    NextIsNew(order, k);
    CheckOneMore(l, self, v, now, Members(order[..k]), order[k]);
  }

  /** A call of the state-change callback. */
  datatype Change = Change(id: string, before: NodeState, after: NodeState)

  /** The callback calls when the first `k` members were checked: one for each whose state changed. */
  function Changes(l: Timeouts, self: string, v: View, now: int, order: seq<string>, k: nat): seq<Change>
    requires k <= |order| && forall i :: 0 <= i < |order| ==> order[i] in v
  {
    if k == 0 then []
    else Changes(l, self, v, now, order, k - 1) + CheckCalls(l, self, v, order[k - 1], now - v[order[k - 1]].heartbeat)
  }

  function CheckCalls(l: Timeouts, self: string, v: View, id: string, elapsed: int): seq<Change>
    requires id in v
  {
    var after := NextState(l, v[id].state, elapsed);
    if id != self && after != v[id].state then [Change(id, v[id].state, after)] else []
  }

  function RevivalCalls(v: View, id: string): seq<Change> {
    if id in v && v[id].state != NodeAlive then [Change(id, v[id].state, NodeAlive)] else []
  }

  // ------------------------------------------------------------- silence is fatal

  function TickedAll(l: Timeouts, self: string, v: View, ticks: seq<int>): View {
    if ticks == [] then v else Ticked(l, self, TickedAll(l, self, v, ticks[..|ticks| - 1]), ticks[|ticks| - 1])
  }

  /** Some tick found the member silent for longer than the first timeout. */
  predicate Suspected(l: Timeouts, heartbeat: int, ticks: seq<int>) {
    exists i :: 0 <= i < |ticks| && ticks[i] - heartbeat > l.suspect
  }

  /** After such a tick came one that found it silent for longer than the second. */
  predicate Declared(l: Timeouts, heartbeat: int, ticks: seq<int>) {
    exists j :: 0 <= j < |ticks| && ticks[j] - heartbeat > l.dead && Suspected(l, heartbeat, ticks[..j])
  }

  lemma SuspectedSnoc(l: Timeouts, heartbeat: int, ticks: seq<int>)
    requires ticks != []
    ensures var init, last := ticks[..|ticks| - 1], ticks[|ticks| - 1];
            Suspected(l, heartbeat, ticks) <==> Suspected(l, heartbeat, init) || last - heartbeat > l.suspect
  {
    var init := ticks[..|ticks| - 1];
    if Suspected(l, heartbeat, init) {
      var i :| 0 <= i < |init| && init[i] - heartbeat > l.suspect;
      assert ticks[i] == init[i];
    }
    if Suspected(l, heartbeat, ticks) {
      var i :| 0 <= i < |ticks| && ticks[i] - heartbeat > l.suspect;
      if i < |init| { assert init[i] == ticks[i]; }
    }
  }

  lemma DeclaredSnoc(l: Timeouts, heartbeat: int, ticks: seq<int>)
    requires ticks != []
    ensures var init, last := ticks[..|ticks| - 1], ticks[|ticks| - 1];
            Declared(l, heartbeat, ticks) <==> Declared(l, heartbeat, init) || (last - heartbeat > l.dead && Suspected(l, heartbeat, init))
  {
    var init := ticks[..|ticks| - 1];
    if Declared(l, heartbeat, init) {
      var j :| 0 <= j < |init| && init[j] - heartbeat > l.dead && Suspected(l, heartbeat, init[..j]);
      assert ticks[j] == init[j] && ticks[..j] == init[..j];
    }
    if Declared(l, heartbeat, ticks) {
      var j :| 0 <= j < |ticks| && ticks[j] - heartbeat > l.dead && Suspected(l, heartbeat, ticks[..j]);
      if j < |init| { assert ticks[j] == init[j] && ticks[..j] == init[..j]; }
    }
  }

  /** A silent member is suspect exactly when some tick suspected it, and dead exactly when a later one declared it. */
  lemma {:induction false} SilentMember(l: Timeouts, self: string, v: View, ticks: seq<int>, id: string)
    requires id in v && id != self && v[id].state == NodeAlive
    ensures var r := TickedAll(l, self, v, ticks);
            && id in r && r[id].heartbeat == v[id].heartbeat
            && r[id].state == if Declared(l, v[id].heartbeat, ticks) then NodeDead
                              else if Suspected(l, v[id].heartbeat, ticks) then NodeSuspect else NodeAlive
  {
    if ticks == [] {
    } else {
      SilentMember(l, self, v, ticks[..|ticks| - 1], id);
      SuspectedSnoc(l, v[id].heartbeat, ticks);
      DeclaredSnoc(l, v[id].heartbeat, ticks);
    }
  }
}
