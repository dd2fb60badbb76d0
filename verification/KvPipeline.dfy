/**
 The stages of a node's pipeline that update state (aspen/internal/kv/version.go:97-124,
 tx.go:45-100, 164-186, store.go:28-83, gossip.go:139-166), each against its function in the
 cluster model.
 */
module KvPipeline {
  import opened KvOperation
  import opened KvTx
  import opened KvCluster

  /** Hands out versions to the requests of which this node is the leaseholder. */
  class VersionAssigner {
    var counter: nat

    constructor ()
      ensures counter == 0
    {
      counter := 0;
    }

    method Assign(ops: array<Operation>)
      modifies this, ops
      ensures counter == old(counter) + ops.Length
      ensures ops[..] == AssignVersions(old(counter), old(ops[..]))
    {
      var latest := counter;
      counter := counter + ops.Length;
      for i := 0 to ops.Length
        invariant counter == old(counter) + ops.Length
        invariant forall j | 0 <= j < i :: ops[j] == old(ops[j]).(version := latest + j + 1)
        invariant forall j | i <= j < ops.Length :: ops[j] == old(ops[j])
      {
        ops[i] := ops[i].(version := latest + i + 1);
      }
    }
  }

  /** A transaction being built by a client. */
  class Transaction {
    var cache: map<Key, Value>
    var digests: seq<Digest>

    ghost function Contents(): Tx
      reads this
    {
      Tx(cache, digests)
    }

    constructor (data: map<Key, Value>)
      ensures Contents() == Begin(data)
    {
      cache, digests := data, [];
    }

    /** Allocates the lease of an operation, then caches it and remembers its digest. */
    method ApplyOp(known: map<Key, Digest>, host: NodeKey, op: Operation) returns (r: Lease)
      modifies this
      ensures r == Allocate(known, host, op)
      ensures Contents() == if r.Leased? then Record(old(Contents()), r.op) else old(Contents())
    {
      r := Allocate(known, host, op);
      if r.Leased? {
        if r.op.variant == Delete {
          cache := cache - {r.op.key};
        } else {
          cache := cache[r.op.key := r.op.value];
        }
        digests := digests + [r.op.ToDigest()];
      }
    }
  }

  /** Applies the operations of a request, each with its digest. */
  method CommitTo(e: Engine, ops: seq<Operation>) returns (r: Engine)
    ensures r == Commit(e, ops)
  {
    r := e;
    for i := 0 to |ops|
      invariant r == Commit(e, ops[..i])
    {
      CommitConcat(e, ops[..i], [ops[i]]);
      assert ops[..i + 1] == ops[..i] + [ops[i]];
      r := KvOperation.ApplyOp(r, ops[i]);
    }
    assert ops[..|ops|] == ops;
  }

  /** Collects the infected operations of a store, walking it in any order. */
  method ToBatchRequest(store: KvCluster.Store) returns (batch: seq<Operation>)
    requires forall k | k in store :: store[k].key == k
    ensures BatchOf(store, batch)
  {
    batch := [];
    var left := store.Keys;
    while left != {}
      invariant left <= store.Keys
      invariant forall i | 0 <= i < |batch| ::
                  batch[i].key in store && batch[i].key !in left && store[batch[i].key] == batch[i] && batch[i].state == Infected
      invariant forall k | k in store && k !in left && store[k].state == Infected :: store[k] in batch
      invariant DistinctKeys(batch)
      decreases |left|
    {
      var k :| k in left;
      left := left - {k};
      if store[k].state == Infected {
        batch := batch + [store[k]];
      }
    }
  }

  /** The gossip store of a node. */
  class StoreSink {
    var state: KvCluster.Store

    constructor ()
      ensures state == map[]
    {
      state := map[];
    }

    /** Overwrites the entries of a snapshot and installs it. */
    method Store(ops: seq<Operation>)
      modifies this
      ensures state == StoreAll(old(state), ops)
    {
      var snap := state;
      for i := 0 to |ops|
        invariant StoreAll(snap, ops[i..]) == StoreAll(old(state), ops)
      {
        assert ops[i..][1..] == ops[i + 1..];
        snap := snap[ops[i].key := ops[i]];
      }
      state := snap;
    }
  }

  /** Counts feedback and decides which operations have spread enough. */
  class GossipRecovery {
    var repetitions: Repetitions
    const threshold: nat

    constructor (threshold: nat)
      ensures repetitions == map[] && this.threshold == threshold
    {
      repetitions := map[];
      this.threshold := threshold;
    }

    method Transform(ops: seq<Operation>) returns (out: seq<Operation>)
      modifies this
      ensures Transformed(repetitions, out) == KvCluster.Transform(old(repetitions), threshold, ops)
    {
      out := [];
      for i := 0 to |ops|
        invariant Transformed(repetitions, out) == KvCluster.Transform(old(repetitions), threshold, ops[..i])
      {
        var op := ops[i];
        var id := (op.key, op.version);
        assert ops[..i + 1][..i] == ops[..i];
        if Count(repetitions, id) > threshold {
          out := out + [op.(state := Recovered)];
          repetitions := repetitions - {id};
        }
        repetitions := repetitions[id := Count(repetitions, id) + 1];
      }
      assert ops[..|ops|] == ops;
    }
  }
}
