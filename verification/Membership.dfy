/** The membership list and the failure detector as objects; node objects are shared between them. */
module Membership {
  import opened Gossip
  import opened Sequences

  class Node {
    const id: string
    var address: string
    var state: NodeState

    constructor (id: string, address: string, state: NodeState)
      ensures this.id == id && this.address == address && this.state == state
    {
      this.id, this.address, this.state := id, address, state;
    }
  }

  class MemberInfo {
    var node: Node
    var lastHeartbeat: int

    constructor (node: Node, lastHeartbeat: int)
      ensures this.node == node && this.lastHeartbeat == lastHeartbeat
    {
      this.node, this.lastHeartbeat := node, lastHeartbeat;
    }
  }

  /** A copied member: the date is a value, the node is the list's own object. */
  datatype Copied = Copied(node: Node, heartbeat: int)

  datatype Lookup = NoMember | Found(member: Copied)

  function CopyOf(m: MemberInfo): Copied
    reads m
  {
    Copied(m.node, m.lastHeartbeat)
  }

  function Ids(copies: seq<Copied>): seq<string> { seq(|copies|, i requires 0 <= i < |copies| => copies[i].node.id) }

  lemma AppendId(copies: seq<Copied>, c: Copied)
    requires NoRepeats(Ids(copies)) && c.node.id !in Ids(copies)
    ensures NoRepeats(Ids(copies + [c]))
    ensures Members(Ids(copies + [c])) == Members(Ids(copies)) + {c.node.id}
  {
    assert Ids(copies + [c]) == Ids(copies) + [c.node.id];
  }

  class MembershipList {
    const selfID: string
    var members: map<string, MemberInfo>
    ghost var repr: set<object>

    ghost predicate Valid()
      reads this, repr
    {
      && this in repr
      && forall id :: id in members ==> members[id] in repr && members[id].node in repr && members[id].node.id == id
    }

    ghost function View(): View
      reads this, repr
      requires Valid()
    {
      map id | id in members :: Member(members[id].node.state, members[id].lastHeartbeat, members[id].node.address)
    }

    /** No two members share an object. */
    lemma Apart(id: string)
      requires Valid() && id in members
      ensures forall other :: other in members && other != id ==> members[other] != members[id] && members[other].node != members[id].node
    {
    }

    /** When one member was set and the objects of the others are as before, only that member changed. */
    twostate lemma OneSet(id: string, new info: MemberInfo)
      requires old(Valid()) && members == old(members)[id := info] && old(repr) <= repr
      requires info in repr && info.node in repr && info.node.id == id
      requires forall other :: other in old(members) && other != id ==>
                 members[other] != info && unchanged(members[other]) && unchanged(members[other].node)
      ensures Valid()
      ensures View() == old(View())[id := Member(info.node.state, info.lastHeartbeat, info.node.address)]
    {
    }

    constructor (selfID: string, now: int)
      ensures Valid() && fresh(repr) && this.selfID == selfID
      ensures View() == Alone(selfID, now)
    {
      this.selfID := selfID;
      var node := new Node(selfID, "", NodeAlive);
      var info := new MemberInfo(node, now);
      members := map[selfID := info];
      repr := {this, node, info};
    }

    /** A known member gets the new node object; its old one is no longer part of the list. */
    method AddMember(node: Node, now: int)
      requires Valid()
      modifies repr
      ensures Valid() && fresh(repr - old(repr) - {node})
      ensures View() == old(View())[node.id := Member(node.state, now, node.address)]
    {
      if node.id in members {
        Apart(node.id);
        members[node.id].node := node;
        members[node.id].lastHeartbeat := now;
        repr := repr + {node};
      } else {
        var info := new MemberInfo(node, now);
        members := members[node.id := info];
        repr := repr + {node, info};
      }
      OneSet(node.id, members[node.id]);
    }

    method RemoveMember(id: string)
      requires Valid()
      modifies this
      ensures Valid() && repr == old(repr)
      ensures View() == if id == selfID then old(View()) else old(View()) - {id}
    {
      if id != selfID {
        members := members - {id};
      }
    }

    method GetMember(id: string) returns (r: Lookup)
      requires Valid()
      ensures r.NoMember? <==> id !in View()
      ensures id in members ==> r == Found(CopyOf(members[id]))
    {
      if id !in members {
        return NoMember;
      }
      return Found(CopyOf(members[id]));
    }

    /** All members, in any order. */
    method GetAllMembers() returns (copies: seq<Copied>)
      requires Valid()
      ensures NoRepeats(Ids(copies)) && Members(Ids(copies)) == members.Keys
      ensures forall i :: 0 <= i < |copies| ==> copies[i].node.id in members && copies[i] == CopyOf(members[copies[i].node.id])
    {
      copies := [];
      var rest := members.Keys;
      while rest != {}
        invariant rest <= members.Keys
        invariant NoRepeats(Ids(copies)) && Members(Ids(copies)) == members.Keys - rest
        invariant forall i :: 0 <= i < |copies| ==> copies[i].node.id in members && copies[i] == CopyOf(members[copies[i].node.id])
      {
        var id :| id in rest;
        AppendId(copies, CopyOf(members[id]));
        copies, rest := copies + [CopyOf(members[id])], rest - {id};
      }
    }

    method UpdateState(id: string, state: NodeState, now: int)
      requires Valid()
      modifies repr
      ensures Valid() && repr == old(repr) && members == old(members) && SameNodes(members)
      ensures View() == Updated(old(View()), id, state, now)
      ensures id in old(View()) ==> View() == old(View())[id := Member(state, if state == NodeAlive then now else old(View())[id].heartbeat, old(View())[id].address)]
      ensures id !in old(View()) ==> View() == old(View())
    {
      if id in members {
        Apart(id);
        members[id].node.state := state;
        if state == NodeAlive {
          members[id].lastHeartbeat := now;
        }
        OneSet(id, members[id]);
      }
    }

    /** The member objects still point to the same nodes. */
    twostate predicate SameNodes(ms: map<string, MemberInfo>)
      reads ms.Values
    {
      forall id :: id in ms ==> ms[id].node == old(ms[id].node)
    }

    method RecordHeartbeat(id: string, now: int)
      requires Valid()
      modifies repr
      ensures Valid() && repr == old(repr) && members == old(members) && SameNodes(members)
      ensures View() == Recorded(old(View()), id, now)
      ensures id in old(View()) ==> View() == old(View())[id := Member(NodeAlive, now, old(View())[id].address)]
      ensures id !in old(View()) ==> View() == old(View())
    {
      if id in members {
        Apart(id);
        members[id].lastHeartbeat := now;
        if members[id].node.state != NodeAlive {
          members[id].node.state := NodeAlive;
        }
        OneSet(id, members[id]);
      }
    }

    /** Takes in one node of a message. */
    method MergeOne(id: string, info: Info)
      requires Valid() && id != selfID
      modifies repr
      ensures Valid() && fresh(repr - old(repr))
      ensures View() == old(View())[id := Joined(old(View()), id, info)]
    {
      if id !in members {
        var state := NodeAlive;
        if info.state == "suspect" {
          state := NodeSuspect;
        } else if info.state == "dead" {
          state := NodeDead;
        }
        var node := new Node(id, info.address, state);
        var member := new MemberInfo(node, info.lastSeen);
        members := members[id := member];
        repr := repr + {node, member};
        OneSet(id, member);
      } else if info.lastSeen > members[id].lastHeartbeat {
        Apart(id);
        members[id].lastHeartbeat := info.lastSeen;
        members[id].node.address := info.address;
        OneSet(id, members[id]);
      }
    }

    /** Takes in a message, node by node in any order; what it says of this node is skipped. */
    method Merge(message: Message)
      requires Valid()
      modifies repr
      ensures Valid() && fresh(repr - old(repr))
      ensures View() == Merged(selfID, old(View()), message)
    {
      var rest := message.Keys;
      ghost var before := View();
      MergedNone(selfID, before, message);
      while rest != {}
        invariant Valid() && fresh(repr - old(repr)) && rest <= message.Keys
        invariant View() == MergedSome(selfID, before, message, message.Keys - rest)
      {
        var id :| id in rest;
        MergeNext(selfID, before, message, rest, id);
        if id != selfID {
          MergeOne(id, message[id]);
        }
        rest := rest - {id};
      }
      MergedWhole(selfID, before, message);
    }

    /** What this node tells others of its members. */
    method ToGossipFormat() returns (message: Message)
      requires Valid()
      ensures message == ToGossip(View())
    {
      message := map[];
      var rest := members.Keys;
      while rest != {}
        invariant rest <= members.Keys && message.Keys == members.Keys - rest
        invariant forall id :: id in message ==> message[id] == ToGossip(View())[id]
      {
        var id :| id in rest;
        var m := members[id];
        message, rest := message[id := Info(m.node.address, StateName(m.node.state), m.lastHeartbeat)], rest - {id};
      }
    }
  }

  /** The view when only what a message says of the nodes in `done` was taken in. */
  function MergedSome(self: string, v: View, message: Message, done: set<string>): View {
    map id | id in v.Keys + (message.Keys * done - {self}) :: if id in message && id in done && id != self then Joined(v, id, message[id]) else v[id]
  }

  lemma MergedNone(self: string, v: View, message: Message)
    ensures MergedSome(self, v, message, message.Keys - message.Keys) == v
  {
  }

  lemma MergeNext(self: string, v: View, message: Message, rest: set<string>, id: string)
    requires rest <= message.Keys && id in rest
    ensures var before := MergedSome(self, v, message, message.Keys - rest);
            MergedSome(self, v, message, message.Keys - (rest - {id})) == if id == self then before else before[id := Joined(before, id, message[id])]
  {
    assert message.Keys - (rest - {id}) == message.Keys - rest + {id};
  }

  lemma MergedWhole(self: string, v: View, message: Message)
    ensures MergedSome(self, v, message, message.Keys) == Merged(self, v, message)
    ensures message.Keys - {} == message.Keys
  {
  }

  // ------------------------------------------------------------------- detector

  /** The first `i` members of the order were checked, starting from view `v` and calls `start`. */
  ghost predicate Progress(l: Timeouts, self: string, v: View, now: int, order: seq<string>, start: seq<Change>, notifies: bool,
                           i: nat, view: View, calls: seq<Change>) {
    && i <= |order| && NoRepeats(order) && (forall j :: 0 <= j < |order| ==> order[j] in v)
    && view == TickedFirst(l, self, v, now, order, i)
    && calls == start + if notifies then Changes(l, self, v, now, order, i) else []
  }

  lemma ProgressNext(l: Timeouts, self: string, v: View, now: int, order: seq<string>, start: seq<Change>, notifies: bool,
                     i: nat, view: View, calls: seq<Change>)
    requires Progress(l, self, v, now, order, start, notifies, i, view, calls) && i < |order|
    ensures var id := order[i]; var elapsed := now - v[id].heartbeat;
            && id in view
            && Progress(l, self, v, now, order, start, notifies, i + 1, if id == self then view else Checked(l, view, id, elapsed),
                        calls + if notifies then CheckCalls(l, self, view, id, elapsed) else [])
  {
    CheckNext(l, self, v, now, order, i);
  }

  lemma ProgressDone(l: Timeouts, self: string, v: View, now: int, order: seq<string>, start: seq<Change>, notifies: bool,
                     view: View, calls: seq<Change>)
    requires Progress(l, self, v, now, order, start, notifies, |order|, view, calls) && Members(order) == v.Keys
    ensures view == Ticked(l, self, v, now) && forall i :: 0 <= i < |order| ==> order[i] in v
    ensures calls == start + if notifies then Changes(l, self, v, now, order, |order|) else []
  {
    TickedWhole(l, self, v, now, order);
  }

  lemma RecordAfterUpdate(v: View, id: string, now: int)
    ensures Recorded(Updated(v, id, NodeAlive, now), id, now) == Recorded(v, id, now)
  {
  }

  class FailureDetector {
    const membership: MembershipList
    const timeouts: Timeouts
    /** Whether there is a state-change callback, and the calls made to it. */
    const notifies: bool
    var calls: seq<Change>

    ghost predicate Valid()
      reads this, membership, membership.repr
    {
      membership.Valid() && this !in membership.repr
    }

    constructor (membership: MembershipList, timeouts: Timeouts, notifies: bool)
      requires membership.Valid()
      ensures Valid() && this.membership == membership && this.timeouts == timeouts && this.notifies == notifies && calls == []
    {
      this.membership, this.timeouts, this.notifies := membership, timeouts, notifies;
      calls := [];
    }

    /** Calls the callback, when there is one; the list is not concerned. */
    method Notify(change: Change)
      requires Valid()
      modifies `calls
      ensures Valid() && membership.View() == old(membership.View()) && membership.SameNodes(membership.members)
      ensures calls == old(calls) + if notifies then [change] else []
    {
      if notifies {
        calls := calls + [change];
      }
    }

    method MarkAlive(id: string, now: int)
      requires Valid()
      modifies membership.repr
      ensures Valid() && membership.repr == old(membership.repr)
      ensures membership.View() == Recorded(old(membership.View()), id, now)
    {
      RecordAfterUpdate(membership.View(), id, now);
      membership.UpdateState(id, NodeAlive, now);
      membership.RecordHeartbeat(id, now);
    }

    /** Revives a suspect or dead member and tells the callback. */
    method Revive(id: string, now: int)
      requires Valid()
      modifies this, membership.repr
      ensures Valid() && membership.repr == old(membership.repr)
      ensures var v := old(membership.View());
              membership.View() == if id in v && v[id].state != NodeAlive then Recorded(v, id, now) else v
      ensures calls == old(calls) + if notifies then RevivalCalls(old(membership.View()), id) else []
    {
      var found := membership.GetMember(id);
      if found.NoMember? {
        return;
      }
      var oldState := found.member.node.state;
      if oldState == NodeDead || oldState == NodeSuspect {
        MarkAlive(id, now);
        Notify(Change(id, oldState, NodeAlive));
      }
    }

    /** A heartbeat makes its sender alive, and the callback never hears of it. */
    method RecordHeartbeat(id: string, now: int)
      requires Valid()
      modifies this, membership.repr
      ensures Valid() && membership.repr == old(membership.repr)
      ensures membership.View() == Recorded(old(membership.View()), id, now)
      ensures calls == old(calls)
    {
      var found := membership.GetMember(id);
      if found.NoMember? {
        return;
      }
      var oldState := found.member.node.state;
      membership.RecordHeartbeat(id, now);
      if oldState != NodeAlive {
        Revive(id, now);
      }
    }

    /** Moves the member on if it was silent for too long; its state is read through the shared node. */
    method Transition(node: Node, elapsed: int, now: int)
      requires membership.Valid() && node.id in membership.members && membership.members[node.id].node == node
      modifies membership.repr
      ensures membership.Valid() && membership.repr == old(membership.repr) && membership.members == old(membership.members)
      ensures membership.SameNodes(membership.members)
      ensures membership.View() == Checked(timeouts, old(membership.View()), node.id, elapsed)
    {
      match node.state {
        case NodeAlive =>
          if elapsed > timeouts.suspect {
            membership.UpdateState(node.id, NodeSuspect, now);
          }
        case NodeSuspect =>
          if elapsed > timeouts.dead {
            membership.UpdateState(node.id, NodeDead, now);
          }
        case NodeDead =>
      }
    }

    /** One copied member: the callback is called when the shared node's state is no longer what it was. */
    method CheckOne(member: Copied, now: int)
      requires Valid()
      requires var id := member.node.id; id in membership.members && membership.members[id].node == member.node
      modifies this, membership.repr
      ensures Valid() && membership.repr == old(membership.repr) && membership.members == old(membership.members)
      ensures membership.SameNodes(membership.members)
      ensures var id, v := member.node.id, old(membership.View());
              && membership.View() == (if id == membership.selfID then v else Checked(timeouts, v, id, now - member.heartbeat))
              && calls == old(calls) + if notifies then CheckCalls(timeouts, membership.selfID, v, id, now - member.heartbeat) else []
    {
      if member.node.id == membership.selfID {
        return;
      }
      var oldState := member.node.state;
      Transition(member.node, now - member.heartbeat, now);
      var newState := member.node.state;
      assert newState == membership.View()[member.node.id].state;
      if oldState != newState {
        Notify(Change(member.node.id, oldState, newState));
      }
    }

    /** The copies are of the list's own nodes. */
    ghost predicate Current(copies: seq<Copied>)
      reads membership, membership.members.Values
    {
      forall i :: 0 <= i < |copies| ==> copies[i].node.id in membership.members && membership.members[copies[i].node.id].node == copies[i].node
    }

    twostate lemma StillCurrent(copies: seq<Copied>)
      requires old(Valid()) && Valid() && old(Current(copies)) && membership.members == old(membership.members) && membership.SameNodes(membership.members)
      ensures Current(copies)
    {
    }

    /** One tick with nothing in between: the callback is called exactly for the members whose state changed. */
    method CheckMembers(now: int) returns (order: seq<string>)
      requires Valid()
      modifies this, membership.repr
      ensures Valid()
      ensures NoRepeats(order) && Members(order) == old(membership.View()).Keys
      ensures membership.View() == Ticked(timeouts, membership.selfID, old(membership.View()), now)
      ensures forall i :: 0 <= i < |order| ==> order[i] in old(membership.View())
      ensures calls == old(calls) + if notifies then Changes(timeouts, membership.selfID, old(membership.View()), now, order, |order|) else []
    {
      var copies := membership.GetAllMembers();
      order := Ids(copies);
      ghost var v, start := membership.View(), calls;
      CopiesAreOk(copies);
      CheckStarts(copies, v, now);
      CheckCopies(copies, v, now);
      ProgressDone(timeouts, membership.selfID, v, now, order, start, notifies, membership.View(), calls);
    }

    ghost predicate CopiesOk(copies: seq<Copied>, v: View) {
      forall i :: 0 <= i < |copies| ==> copies[i].node.id in v && copies[i].heartbeat == v[copies[i].node.id].heartbeat
    }

    /** The first `i` copied members were checked. */
    ghost predicate CheckedUpTo(copies: seq<Copied>, v: View, now: int, start: seq<Change>, i: nat)
      requires CopiesOk(copies, v)
      reads this, membership, membership.repr, membership.members.Values
    {
      Valid() && Current(copies) && Progress(timeouts, membership.selfID, v, now, Ids(copies), start, notifies, i, membership.View(), calls)
    }

    lemma CopiesAreOk(copies: seq<Copied>)
      requires Valid()
      requires forall i :: 0 <= i < |copies| ==>
                 copies[i].node.id in membership.members && copies[i] == CopyOf(membership.members[copies[i].node.id])
      ensures Current(copies) && CopiesOk(copies, membership.View())
    {
    }

    lemma CheckStarts(copies: seq<Copied>, v: View, now: int)
      requires Valid() && Current(copies) && CopiesOk(copies, v) && NoRepeats(Ids(copies)) && v == membership.View()
      ensures CheckedUpTo(copies, v, now, calls, 0)
    {
      TickedNone(timeouts, membership.selfID, v, now, Ids(copies));
    }

    /** Checks copied member `i`, the ones before it having been checked. */
    method CheckAt(copies: seq<Copied>, ghost v: View, now: int, ghost start: seq<Change>, i: nat)
      requires i < |copies| && CopiesOk(copies, v) && CheckedUpTo(copies, v, now, start, i)
      modifies this, membership.repr
      ensures membership.repr == old(membership.repr) && CheckedUpTo(copies, v, now, start, i + 1)
    {
      assert Ids(copies)[i] == copies[i].node.id;
      ProgressNext(timeouts, membership.selfID, v, now, Ids(copies), start, notifies, i, membership.View(), calls);
      CheckOne(copies[i], now);
      StillCurrent(copies);
    }

    method CheckCopies(copies: seq<Copied>, ghost v: View, now: int)
      requires CopiesOk(copies, v) && CheckedUpTo(copies, v, now, calls, 0)
      modifies this, membership.repr
      ensures CheckedUpTo(copies, v, now, old(calls), |copies|)
    {
      for i := 0 to |copies|
        invariant membership.repr == old(membership.repr) && CheckedUpTo(copies, v, now, old(calls), i)
      {
        CheckAt(copies, v, now, old(calls), i);
      }
    }
  }
}
