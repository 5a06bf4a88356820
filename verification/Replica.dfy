/**
 * A node's replication handlers over its storage engine, and why the engines of all nodes together
 * behave as the replica map of `Quorum`.
 */
module Replica {
  import opened Codec
  import opened Log
  import opened Types
  import E = Engine
  import B = Bitcask
  import Q = Quorum

  datatype Status = Accepted | BadRequest | NotFound | ServerError

  datatype ReadReply = ReadReply(status: Status, value: Bytes, timestamp: int64)

  class Server {
    const storage: B.Bitcask

    constructor (storage: B.Bitcask)
      ensures this.storage == storage
    {
      this.storage := storage;
    }

    /** The step of the storage that a replication request asks for. */
    method HandleReplication(key: Bytes, value: Bytes, timestamp: int64, deleted: bool) returns (status: Status, ghost reply: E.Reply)
      modifies storage, storage.index
      ensures status == if reply == E.Done then Accepted else ServerError
      ensures E.Step(FileFormat(storage.crc), storage.syncWrite, old(storage.State()),
                     if deleted then E.Delete(key, timestamp) else E.Put(key, value, timestamp), storage.State(), reply)
    {
      var r: E.Reply;
      if deleted {
        r := storage.Delete(key, timestamp);
      } else {
        r := storage.Put(key, value, timestamp);
      }
      reply := r;
      if r.Failed? {
        return ServerError, reply;
      }
      return Accepted, reply;
    }

    /** Reads the local copy; an empty key is refused before the storage is asked. */
    method HandleInternalRead(key: Bytes) returns (r: ReadReply, ghost reply: E.Reply)
      modifies storage
      ensures key == [] ==> r.status == BadRequest && storage.State() == old(storage.State())
      ensures key != [] ==> E.Step(FileFormat(storage.crc), storage.syncWrite, old(storage.State()), E.Get(key), storage.State(), reply)
      ensures key != [] ==> if reply.Found? then r == ReadReply(Accepted, reply.value, reply.timestamp) else r.status == NotFound
    {
      reply := E.Done;
      if |key| == 0 {
        return ReadReply(BadRequest, [], 0), reply;
      }
      var read := storage.Get(key);
      reply := read;
      if read.Failed? {
        return ReadReply(NotFound, [], 0), reply;
      }
      return ReadReply(Accepted, read.value, read.timestamp), reply;
    }
  }

  // ----------------------------------------------------- engines as a replica map

  /** A node's open engine and the records that explain it. */
  datatype Store = Store(engine: E.Engine, records: seq<Record>)

  ghost predicate StoreOk(f: Format, st: Store) { E.Represents(f, st.engine, st.records) && !st.engine.closed }

  /** The node's store holds the copy that the replica map says, or none. */
  ghost predicate Mirrors(replicas: map<Node, Q.Copy>, n: Node, key: Bytes, contents: map<Bytes, Versioned>) {
    && (n in replicas <==> key in contents)
    && (n in replicas ==> replicas[n] == Q.Copy(contents[key].value, contents[key].timestamp))
  }

  /** All stores together hold exactly the replica map of the key. */
  ghost predicate Holds(f: Format, replicas: map<Node, Q.Copy>, key: Bytes, stores: map<Node, Store>) {
    replicas.Keys <= stores.Keys && forall n :: n in stores ==> HoldsAt(f, replicas, key, n, stores[n])
  }

  ghost predicate HoldsAt(f: Format, replicas: map<Node, Q.Copy>, key: Bytes, n: Node, st: Store) {
    StoreOk(f, st) && Mirrors(replicas, n, key, Contents(st.records))
  }

  /** What an operation at a node does to the replica map: only writes and deletes of the key matter. */
  function ReplicaStep(replicas: map<Node, Q.Copy>, n: Node, key: Bytes, op: E.Op): map<Node, Q.Copy> {
    if op.Put? && op.key == key then Q.Write(replicas, n, Q.Copy(op.value, op.timestamp))
    else if op.Delete? && op.key == key then replicas - {n}
    else replicas
  }

  /** A Get is answered with the node's copy, or fails when it has none; writes and deletes succeed. */
  predicate Replied(replicas: map<Node, Q.Copy>, n: Node, key: Bytes, op: E.Op, reply: E.Reply) {
    && (op == E.Get(key) ==> if n in replicas then reply == E.Found(replicas[n].value, replicas[n].timestamp) else reply.Failed?)
    && (op.Put? || op.Delete? ==> reply == E.Done)
  }

  lemma MirrorStep(replicas: map<Node, Q.Copy>, n: Node, key: Bytes, p: E.Plain, op: E.Op, reply: E.Reply)
    requires Mirrors(replicas, n, key, p.contents) && !p.closed && !op.Close?
    ensures Mirrors(ReplicaStep(replicas, n, key, op), n, key, E.PlainStep(p, op).contents) && !E.PlainStep(p, op).closed
    ensures E.ReplyAgrees(p, op, reply) ==> Replied(replicas, n, key, op, reply)
  {
  }

  lemma OtherStores(f: Format, replicas: map<Node, Q.Copy>, key: Bytes, stores: map<Node, Store>, n: Node, op: E.Op, st: Store)
    requires Holds(f, replicas, key, stores) && n in stores && HoldsAt(f, ReplicaStep(replicas, n, key, op), key, n, st)
    ensures Holds(f, ReplicaStep(replicas, n, key, op), key, stores[n := st])
  {
    var more := stores[n := st];
    forall m | m in more
      ensures HoldsAt(f, ReplicaStep(replicas, n, key, op), key, m, more[m])
    {
      if m != n { OtherMirror(replicas, n, key, op, m, Contents(stores[m].records)); }
    }
  }

  lemma OtherMirror(replicas: map<Node, Q.Copy>, n: Node, key: Bytes, op: E.Op, m: Node, contents: map<Bytes, Versioned>)
    requires m != n && Mirrors(replicas, m, key, contents)
    ensures Mirrors(ReplicaStep(replicas, n, key, op), m, key, contents)
  {
  }

  lemma OneStore(f: Format, sync: bool, replicas: map<Node, Q.Copy>, key: Bytes, st: Store, n: Node, op: E.Op, s': E.Engine, reply: E.Reply)
    returns (records: seq<Record>)
    requires Lawful(f) && StoreOk(f, st) && Mirrors(replicas, n, key, Contents(st.records))
    requires E.OpFits(op) && !op.Reopen? && !op.Close? && E.Step(f, sync, st.engine, op, s', reply)
    ensures StoreOk(f, Store(s', records)) && Mirrors(ReplicaStep(replicas, n, key, op), n, key, Contents(records))
    ensures Replied(replicas, n, key, op, reply)
  {
    records := E.StepRefines(f, sync, st.engine, st.records, op, s', reply);
    MirrorStep(replicas, n, key, E.Plain(Contents(st.records), false), op, reply);
  }

  /**
   * Whatever an open engine does at one node, the engines keep holding the replica map: a Put of the
   * key is an unconditional replica write, a Delete forgets the copy, all else, compaction included,
   * changes nothing, and a Get answers with the copy or fails.
   */
  lemma EnginesHoldReplicas(f: Format, sync: bool, replicas: map<Node, Q.Copy>, key: Bytes, stores: map<Node, Store>,
                            n: Node, op: E.Op, s': E.Engine, reply: E.Reply) returns (records: seq<Record>)
    requires Lawful(f) && Holds(f, replicas, key, stores) && n in stores
    requires E.OpFits(op) && !op.Reopen? && !op.Close? && E.Step(f, sync, stores[n].engine, op, s', reply)
    ensures Holds(f, ReplicaStep(replicas, n, key, op), key, stores[n := Store(s', records)])
    ensures Replied(replicas, n, key, op, reply)
  {
    assert HoldsAt(f, replicas, key, n, stores[n]);
    records := OneStore(f, sync, replicas, key, stores[n], n, op, s', reply);
    OtherStores(f, replicas, key, stores, n, op, Store(s', records));
  }
}
