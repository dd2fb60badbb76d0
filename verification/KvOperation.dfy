/**
 Operations and digests of the replicated key-value store, and how they are applied to a node's
 engine (aspen/internal/kv/operation.go, tx.go:164-186).  Digest entries live under their own
 key prefix in the engine; here they are a separate map.
 */
module KvOperation {
  type Key = string
  type Value = string
  type NodeKey = nat

  const DEFAULT_LEASEHOLDER: NodeKey := 0

  datatype Variant = Set | Delete

  datatype GossipState = Infected | Recovered

  datatype Digest = Digest(key: Key, variant: Variant, version: int, leaseholder: NodeKey) {
    /** The operation rebuilt from a digest: it carries no value and counts as infected. */
    function ToOperation(): Operation {
      Operation(key, "", variant, version, leaseholder, Infected)
    }
  }

  datatype Operation = Operation(key: Key, value: Value, variant: Variant, version: int, leaseholder: NodeKey, state: GossipState) {
    function ToDigest(): Digest {
      Digest(key, variant, version, leaseholder)
    }
  }

  datatype Engine = Engine(data: map<Key, Value>, digests: map<Key, Digest>)

  const EMPTY_ENGINE := Engine(map[], map[])

  /** Writes an operation and its digest. */
  function ApplyOp(e: Engine, op: Operation): Engine {
    Engine(if op.variant == Delete then e.data - {op.key} else e.data[op.key := op.value],
           e.digests[op.key := op.ToDigest()])
  }

  /** `commitTo`: applies the operations of a request in order. */
  function Commit(e: Engine, ops: seq<Operation>): Engine
    decreases ops
  {
    if ops == [] then e else Commit(ApplyOp(e, ops[0]), ops[1..])
  }

  lemma {:induction false} CommitConcat(e: Engine, a: seq<Operation>, b: seq<Operation>)
    ensures Commit(e, a + b) == Commit(Commit(e, a), b)
    decreases a
  {
    if a == [] {
      assert a + b == b;
    } else {
      assert (a + b)[1..] == a[1..] + b;
      CommitConcat(ApplyOp(e, a[0]), a[1..], b);
    }
  }

  /** No two operations of a batch are for the same key. */
  predicate DistinctKeys(ops: seq<Operation>) {
    forall i, j | 0 <= i < j < |ops| :: ops[i].key != ops[j].key
  }

  /** The engine holds, for key `k`, exactly what operation `op` says. */
  predicate Holds(e: Engine, k: Key, op: Operation) {
    && op.key == k
    && k in e.digests && e.digests[k] == op.ToDigest()
    && (if op.variant == Set then k in e.data && e.data[k] == op.value else k !in e.data)
  }

  lemma ApplyHolds(e: Engine, op: Operation)
    ensures Holds(ApplyOp(e, op), op.key, op)
    ensures forall k, o | k != op.key :: Holds(ApplyOp(e, op), k, o) <==> Holds(e, k, o)
  {
  }

  /** Position `j` holds the last operation for `k`. */
  predicate LastFor(ops: seq<Operation>, k: Key, j: nat) {
    j < |ops| && ops[j].key == k && forall i | j < i < |ops| :: ops[i].key != k
  }

  /** No operation is for `k`. */
  predicate Silent(ops: seq<Operation>, k: Key) {
    forall i | 0 <= i < |ops| :: ops[i].key != k
  }

  /** The data holds, for `k`, the value that `op` sets, or none when it deletes it. */
  predicate Says(data: map<Key, Value>, k: Key, op: Operation) {
    if op.variant == Set then k in data && data[k] == op.value else k !in data
  }

  predicate SameValue(m: map<Key, Value>, n: map<Key, Value>, k: Key) {
    (k in m <==> k in n) && (k in m ==> m[k] == n[k])
  }

  /** What the last operation for each key says is in the data, and the other keys are as they were. */
  ghost predicate LastWord(data: map<Key, Value>, ops: seq<Operation>, k: Key, after: map<Key, Value>) {
    && (forall j: nat | LastFor(ops, k, j) :: Says(after, k, ops[j]))
    && (Silent(ops, k) ==> SameValue(after, data, k))
  }
}
