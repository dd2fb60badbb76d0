/**
 A cluster of replicated key-value nodes as a state machine: transactions, lease routing, version
 assignment, gossip and feedback, wired as in aspen/internal/kv/kv.go:188-253.

 Filtering and persisting one request is one step, and so is assigning versions and persisting.
 A message, once sent, may be delivered at any later time, any number of times, or never.
 */
module KvCluster {
  import opened Common
  import opened KvOperation
  import opened KvVersion
  import opened KvTx

  datatype Request = Request(leaseholder: NodeKey, ops: seq<Operation>)

  datatype Message =
    | Lease(req: Request)
    | Gossip(to: NodeKey, sender: NodeKey, ops: seq<Operation>)
    | Feedback(to: NodeKey, digests: seq<Digest>)

  type Store = map<Key, Operation>

  type Repetitions = map<(Key, int), nat>

  datatype Node = Node(engine: Engine, counter: nat, store: Store, repetitions: Repetitions, txs: map<nat, Tx>)

  const EMPTY_NODE := Node(EMPTY_ENGINE, 0, map[], map[], map[])

  /** `log` records every operation a leaseholder has assigned a version, in order. */
  datatype Cluster = Cluster(nodes: map<NodeKey, Node>, net: set<Message>, log: seq<Operation>)

  // ----- Pipeline stages -----

  /** `assign`: consecutive versions after the counter. */
  function AssignVersions(counter: nat, ops: seq<Operation>): (r: seq<Operation>)
    ensures |r| == |ops|
    ensures forall i | 0 <= i < |ops| :: r[i] == ops[i].(version := counter + i + 1)
  {
    seq(|ops|, i requires 0 <= i < |ops| => ops[i].(version := counter + i + 1))
  }

  /** `storeSink.Store`: later operations overwrite earlier ones, whatever their versions. */
  function StoreAll(store: Store, ops: seq<Operation>): Store
    decreases ops
  {
    if ops == [] then store else StoreAll(store[ops[0].key := ops[0]], ops[1..])
  }

  /** The store has, for each key, the last operation it was given for it. */
  lemma {:induction false} StoreKeepsLast(store: Store, ops: seq<Operation>, k: Key)
    ensures forall j: nat | LastFor(ops, k, j) :: k in StoreAll(store, ops) && StoreAll(store, ops)[k] == ops[j]
    ensures Silent(ops, k) ==> SameEntry(StoreAll(store, ops), store, k)
    decreases ops
  {
    if ops != [] {
      var store', rest := store[ops[0].key := ops[0]], ops[1..];
      StoreKeepsLast(store', rest, k);
      forall j: nat | LastFor(ops, k, j)
        ensures k in StoreAll(store, ops) && StoreAll(store, ops)[k] == ops[j]
      {
        if j == 0 {
          assert Silent(rest, k);
        } else {
          assert LastFor(rest, k, j - 1);
        }
      }
    }
  }

  predicate SameEntry(s: Store, t: Store, k: Key) {
    (k in s <==> k in t) && (k in s ==> s[k] == t[k])
  }

  /** `toBatchRequest`: the infected operations of the store, once each, in any order. */
  predicate BatchOf(store: Store, batch: seq<Operation>) {
    && (forall i | 0 <= i < |batch| :: batch[i].key in store && store[batch[i].key] == batch[i] && batch[i].state == Infected)
    && (forall k | k in store && store[k].state == Infected :: store[k] in batch)
    && DistinctKeys(batch)
  }

  datatype Transformed = Transformed(repetitions: Repetitions, out: seq<Operation>)

  function Count(r: Repetitions, id: (Key, int)): nat {
    if id in r then r[id] else 0
  }

  /** `transform`: counts feedback per key and version, and marks recovered what has been fed back often enough. */
  function Transform(r: Repetitions, threshold: nat, ops: seq<Operation>): Transformed {
    if ops == [] then Transformed(r, [])
    else
      var t, op := Transform(r, threshold, ops[..|ops| - 1]), ops[|ops| - 1];
      var id := (op.key, op.version);
      if Count(t.repetitions, id) > threshold then
        Transformed((t.repetitions - {id})[id := 1], t.out + [op.(state := Recovered)])
      else
        Transformed(t.repetitions[id := Count(t.repetitions, id) + 1], t.out)
  }

  /** How often an operation with this key and version occurs. */
  function Occurrences(ops: seq<Operation>, id: (Key, int)): nat {
    |set i | 0 <= i < |ops| && (ops[i].key, ops[i].version) == id|
  }

  /** What is counted once an operation has been fed back `m` times: one more each time, from one again after `threshold + 1`. */
  function Cycle(threshold: nat, m: nat): nat {
    if m == 0 then 0 else (m - 1) % (threshold + 1) + 1
  }

  /** The operations that have occurred a positive multiple of `threshold + 1` times before, marked recovered, in order. */
  function AllDue(threshold: nat, ops: seq<Operation>): seq<Operation> {
    if ops == [] then []
    else
      var front, op := ops[..|ops| - 1], ops[|ops| - 1];
      var before := Occurrences(front, (op.key, op.version));
      AllDue(threshold, front) + (if before > 0 && before % (threshold + 1) == 0 then [op.(state := Recovered)] else [])
  }

  lemma OccurrencesSnoc(ops: seq<Operation>, op: Operation, id: (Key, int))
    ensures Occurrences(ops + [op], id) == Occurrences(ops, id) + (if (op.key, op.version) == id then 1 else 0)
  {
    var all := ops + [op];
    var a := set i | 0 <= i < |ops| && (ops[i].key, ops[i].version) == id;
    var b := set i | 0 <= i < |all| && (all[i].key, all[i].version) == id;
    assert b == a + (if (op.key, op.version) == id then {|ops|} else {});
  }

  lemma RemainderNext(x: int, d: int)
    requires d > 0
    ensures (x + 1) % d == if x % d == d - 1 then 0 else x % d + 1
  {
    var q, r := x / d, x % d;
    assert x == q * d + r;
    if r == d - 1 {
      assert (q + 1) * d == q * d + d;
      Divides(x + 1, q + 1, d);
    } else {
      Divides(x + 1, q, d);
    }
  }

  lemma CycleNext(threshold: nat, m: nat)
    ensures Cycle(threshold, m) > threshold <==> m > 0 && m % (threshold + 1) == 0
    ensures Cycle(threshold, m + 1) == if Cycle(threshold, m) > threshold then 1 else Cycle(threshold, m) + 1
  {
    var d := threshold + 1;
    if m == 0 {
      Divides(0, 0, d);
    } else {
      RemainderNext(m - 1, d);
    }
  }

  /** Each count has gone round its cycle as often as the operation was fed back. */
  ghost predicate Counts(threshold: nat, ops: seq<Operation>, t: Repetitions) {
    forall id :: Count(t, id) == Cycle(threshold, Occurrences(ops, id))
  }

  lemma CountsSnoc(threshold: nat, ops: seq<Operation>, op: Operation, t: Repetitions, t': Repetitions)
    requires Counts(threshold, ops, t)
    requires forall id :: Count(t', id) == if id != (op.key, op.version) then Count(t, id)
                                           else if Count(t, id) > threshold then 1
                                           else Count(t, id) + 1
    ensures Counts(threshold, ops + [op], t')
  {
    forall id
      ensures Count(t', id) == Cycle(threshold, Occurrences(ops + [op], id))
    {
      OccurrencesSnoc(ops, op, id);
      CycleNext(threshold, Occurrences(ops, id));
    }
  }

  lemma {:induction false} TransformCounts(threshold: nat, ops: seq<Operation>)
    ensures Counts(threshold, ops, Transform(map[], threshold, ops).repetitions)
  {
    if ops != [] {
      var front, op := ops[..|ops| - 1], ops[|ops| - 1];
      TransformCounts(threshold, front);
      assert front + [op] == ops;
      CountsSnoc(threshold, front, op, Transform(map[], threshold, front).repetitions, Transform(map[], threshold, ops).repetitions);
    }
  }

  /** Transforming one message after another is transforming them together. */
  lemma {:induction false} TransformConcat(r: Repetitions, threshold: nat, a: seq<Operation>, b: seq<Operation>)
    ensures var t := Transform(r, threshold, a);
            var u := Transform(t.repetitions, threshold, b);
            Transform(r, threshold, a + b) == Transformed(u.repetitions, t.out + u.out)
  {
    if b == [] {
      assert a + b == a;
    } else {
      var n := |b| - 1;
      TransformConcat(r, threshold, a, b[..n]);
      assert (a + b)[..|a + b| - 1] == a + b[..n] && (a + b)[|a + b| - 1] == b[n];
    }
  }

  /**
   Which feedback marks an operation recovered: after an operation has been fed back `m` times, the next time does exactly
   when `m` is a positive multiple of `threshold + 1`.
   */
  lemma {:induction false} TransformIsPeriodic(threshold: nat, ops: seq<Operation>)
    ensures Transform(map[], threshold, ops).out == AllDue(threshold, ops)
  {
    if ops != [] {
      var front, op := ops[..|ops| - 1], ops[|ops| - 1];
      TransformIsPeriodic(threshold, front);
      TransformCounts(threshold, front);
      CycleNext(threshold, Occurrences(front, (op.key, op.version)));
    }
  }

  function ToOperations(ds: seq<Digest>): seq<Operation> {
    seq(|ds|, i requires 0 <= i < |ds| => ds[i].ToOperation())
  }

  function ToDigests(ops: seq<Operation>): seq<Digest> {
    seq(|ops|, i requires 0 <= i < |ops| => ops[i].ToDigest())
  }

  // ----- Steps -----

  datatype Step =
    | BeginTx(n: NodeKey, id: nat)
    | ApplyTx(n: NodeKey, id: nat, op: Operation)
    | CommitTx(n: NodeKey, id: nat, reqs: Requests)
    | Assign(n: NodeKey, req: Request)
    | SendGossip(n: NodeKey, to: NodeKey, batch: seq<Operation>)
    | ReceiveGossip(n: NodeKey, sender: NodeKey, batch: seq<Operation>)
    | ReceiveFeedback(n: NodeKey, digests: seq<Digest>, threshold: nat)

  function LeaseMessages(reqs: Requests): set<Message> {
    set lh | lh in reqs :: Lease(Request(lh, reqs[lh]))
  }

  /** The node after assigning versions to a request and persisting it. */
  function Assigned(node: Node, ops: seq<Operation>): Node {
    var versioned := AssignVersions(node.counter, ops);
    node.(counter := node.counter + |ops|, engine := Commit(node.engine, versioned), store := StoreAll(node.store, versioned))
  }

  /** The node after filtering a gossiped request and persisting what is new. */
  function Gossiped(node: Node, batch: seq<Operation>): Node {
    node.(engine := Deliver(node.engine, batch), store := StoreAll(node.store, Accepted(node.engine, batch)))
  }

  /** An assigned request leaves in the store, for each of its keys, the last operation with its version, and other entries as they were. */
  lemma AssignedStore(node: Node, ops: seq<Operation>, k: Key)
    ensures forall j: nat | LastFor(ops, k, j) ::
              k in Assigned(node, ops).store && Assigned(node, ops).store[k] == ops[j].(version := node.counter + j + 1)
    ensures Silent(ops, k) ==> SameEntry(Assigned(node, ops).store, node.store, k)
  {
    var block := AssignVersions(node.counter, ops);
    StoreKeepsLast(node.store, block, k);
    forall j: nat | LastFor(ops, k, j)
      ensures LastFor(block, k, j)
    {
    }
  }

  /** A gossiped request leaves in the store those of its operations that are new, and the other entries as they were. */
  lemma GossipedStore(node: Node, batch: seq<Operation>, k: Key)
    requires DistinctKeys(batch)
    ensures forall op | op in batch && op.key == k && Filter(node.engine, op) ::
              k in Gossiped(node, batch).store && Gossiped(node, batch).store[k] == op
    ensures (forall op | op in batch && op.key == k :: !Filter(node.engine, op)) ==> SameEntry(Gossiped(node, batch).store, node.store, k)
  {
    var accepted := Accepted(node.engine, batch);
    SplitMembers(node.engine, batch);
    AcceptedDistinct(node.engine, batch);
    StoreKeepsLast(node.store, accepted, k);
    forall op | op in batch && op.key == k && Filter(node.engine, op)
      ensures k in Gossiped(node, batch).store && Gossiped(node, batch).store[k] == op
    {
      var j :| 0 <= j < |accepted| && accepted[j] == op;
      assert LastFor(accepted, k, j);
    }
    if forall op | op in batch && op.key == k :: !Filter(node.engine, op) {
      assert forall i | 0 <= i < |accepted| :: accepted[i] in accepted;
    }
  }

  ghost predicate Next(c: Cluster, step: Step, c': Cluster) {
    && step.n in c.nodes
    && var node := c.nodes[step.n];
       match step
       case BeginTx(n, id) =>
         c' == c.(nodes := c.nodes[n := node.(txs := node.txs[id := Begin(node.engine.data)])])
       case ApplyTx(n, id, op) =>
         && id in node.txs && op.state == Infected && Allocate(node.engine.digests, n, op).Leased?
         && c' == c.(nodes := c.nodes[n := node.(txs := node.txs[id := Record(node.txs[id], Allocate(node.engine.digests, n, op).op)])])
       case CommitTx(n, id, reqs) =>
         && id in node.txs && SplitInto(node.txs[id], reqs)
         && c' == c.(net := c.net + LeaseMessages(reqs))
       // The lease proxy hands a request to the version assigner only at its own leaseholder.
       case Assign(n, req) =>
         && Lease(req) in c.net && req.leaseholder == n
         && c' == c.(nodes := c.nodes[n := Assigned(node, req.ops)], log := c.log + AssignVersions(node.counter, req.ops))
       // Both the request and the acknowledgement of a gossip exchange.
       case SendGossip(n, to, batch) =>
         && BatchOf(node.store, batch)
         && c' == c.(net := c.net + {Gossip(to, n, batch)})
       case ReceiveGossip(n, sender, batch) =>
         && Gossip(n, sender, batch) in c.net
         && c' == c.(nodes := c.nodes[n := Gossiped(node, batch)],
                     net := c.net + {Feedback(sender, ToDigests(Rejected(node.engine, batch)))})
       case ReceiveFeedback(n, digests, threshold) =>
         && Feedback(n, digests) in c.net
         && var t := Transform(node.repetitions, threshold, ToOperations(digests));
            c' == c.(nodes := c.nodes[n := node.(repetitions := t.repetitions, store := StoreAll(node.store, t.out))])
  }

  ghost predicate Init(c: Cluster) {
    (forall n | n in c.nodes :: c.nodes[n] == EMPTY_NODE) && c.net == {} && c.log == []
  }

  // ----- Invariant -----

  /** No two assigned operations share a leaseholder and a version, and none is beyond its leaseholder's counter. */
  predicate LogOk(c: Cluster) {
    && (forall i | 0 <= i < |c.log| ::
          && c.log[i].state == Infected && c.log[i].leaseholder in c.nodes
          && 1 <= c.log[i].version <= c.nodes[c.log[i].leaseholder].counter)
    && (forall i, j | 0 <= i < j < |c.log| ::
          c.log[i].leaseholder != c.log[j].leaseholder || c.log[i].version != c.log[j].version)
  }

  /** Some assigned operation has this digest. */
  predicate Known(log: seq<Operation>, d: Digest) {
    exists o | o in log :: o.ToDigest() == d
  }

  /** For every key the engine holds what some assigned operation says. */
  predicate EngineOk(e: Engine, log: seq<Operation>) {
    && (forall k | k in e.digests :: exists o | o in log :: Holds(e, k, o))
    && (forall k | k in e.data :: k in e.digests)
  }

  /** An infected operation is an assigned one, value included; a recovered one has the digest of one. */
  predicate OpOk(op: Operation, log: seq<Operation>) {
    if op.state == Infected then op in log else Known(log, op.ToDigest())
  }

  predicate StoreOk(store: Store, log: seq<Operation>) {
    forall k | k in store :: store[k].key == k && OpOk(store[k], log)
  }

  predicate MessageOk(m: Message, log: seq<Operation>) {
    match m
    case Lease(req) => forall i | 0 <= i < |req.ops| :: req.ops[i].leaseholder == req.leaseholder && req.ops[i].state == Infected
    case Gossip(_, _, ops) => DistinctKeys(ops) && forall i | 0 <= i < |ops| :: ops[i] in log
    case Feedback(_, digests) => forall i | 0 <= i < |digests| :: Known(log, digests[i])
  }

  predicate Inv(c: Cluster) {
    && LogOk(c)
    && (forall n | n in c.nodes :: EngineOk(c.nodes[n].engine, c.log) && StoreOk(c.nodes[n].store, c.log))
    && (forall m | m in c.net :: MessageOk(m, c.log))
  }

  // ----- Preservation -----

  /** Everything but the log itself survives the log growing. */
  lemma LogGrows(log: seq<Operation>, more: seq<Operation>)
    ensures forall e | EngineOk(e, log) :: EngineOk(e, log + more)
    ensures forall s | StoreOk(s, log) :: StoreOk(s, log + more)
    ensures forall m | MessageOk(m, log) :: MessageOk(m, log + more)
  {
  }

  lemma {:induction false} CommitOk(e: Engine, ops: seq<Operation>, log: seq<Operation>)
    requires EngineOk(e, log) && forall i | 0 <= i < |ops| :: ops[i] in log
    ensures EngineOk(Commit(e, ops), log)
    decreases ops
  {
    if ops != [] {
      var op := ops[0];
      var e' := ApplyOp(e, op);
      ApplyHolds(e, op);
      forall k | k in e'.digests
        ensures exists o | o in log :: Holds(e', k, o)
      {
        if k != op.key {
          var o :| o in log && Holds(e, k, o);
          assert Holds(e', k, o);
        }
      }
      CommitOk(e', ops[1..], log);
    }
  }

  lemma {:induction false} StoreAllOk(store: Store, ops: seq<Operation>, log: seq<Operation>)
    requires StoreOk(store, log) && forall i | 0 <= i < |ops| :: OpOk(ops[i], log)
    ensures StoreOk(StoreAll(store, ops), log)
    decreases ops
  {
    if ops != [] {
      StoreAllOk(store[ops[0].key := ops[0]], ops[1..], log);
    }
  }

  lemma {:induction false} GroupMembers(cache: map<Key, Value>, digests: seq<Digest>, lh: NodeKey)
    requires forall i | 0 <= i < |digests| :: digests[i].variant == Set ==> digests[i].key in cache
    ensures forall i | 0 <= i < |Group(cache, digests, lh)| ::
              var op := Group(cache, digests, lh)[i];
              && op.leaseholder == lh && op.state == Infected
              && exists d | d in digests :: d.key == op.key && d.leaseholder == lh
  {
    if digests != [] {
      GroupMembers(cache, digests[..|digests| - 1], lh);
      assert digests[|digests| - 1] in digests;
      assert forall d | d in digests[..|digests| - 1] :: d in digests;
    }
  }

  lemma {:induction false} GroupCarries(cache: map<Key, Value>, digests: seq<Digest>, lh: NodeKey, i: nat)
    requires forall j | 0 <= j < |digests| :: digests[j].variant == Set ==> digests[j].key in cache
    requires i < |digests| && digests[i].leaseholder == lh
    ensures Fill(cache, digests[i]) in Group(cache, digests, lh)
  {
    if i < |digests| - 1 {
      GroupCarries(cache, digests[..|digests| - 1], lh, i);
    }
  }

  /** A commit sends every operation of the transaction to its leaseholder, with the value the transaction reads for it, and nothing else. */
  lemma CommitTxCarries(c: Cluster, n: NodeKey, id: nat, reqs: Requests, c': Cluster, i: nat)
    requires Next(c, CommitTx(n, id, reqs), c') && i < |c.nodes[n].txs[id].digests|
    ensures var tx := c.nodes[n].txs[id];
            var d := tx.digests[i];
            && d.leaseholder in reqs && Lease(Request(d.leaseholder, reqs[d.leaseholder])) in c'.net
            && Fill(tx.cache, d) in reqs[d.leaseholder]
    ensures forall m | m in c'.net && m !in c.net :: m.Lease? && m.req.leaseholder in reqs && m.req.ops == reqs[m.req.leaseholder]
  {
    var tx := c.nodes[n].txs[id];
    GroupCarries(tx.cache, tx.digests, tx.digests[i].leaseholder, i);
  }

  lemma CommitTxKeeps(c: Cluster, n: NodeKey, id: nat, reqs: Requests, c': Cluster)
    requires Inv(c) && Next(c, CommitTx(n, id, reqs), c')
    ensures Inv(c')
  {
    var tx := c.nodes[n].txs[id];
    forall m | m in LeaseMessages(reqs)
      ensures MessageOk(m, c.log)
    {
      GroupMembers(tx.cache, tx.digests, m.req.leaseholder);
    }
  }

  /** The assigned block continues the log without repeating a version of its leaseholder. */
  lemma AssignLogOk(c: Cluster, n: NodeKey, req: Request, c': Cluster)
    requires Inv(c) && Next(c, Assign(n, req), c')
    ensures LogOk(c')
  {
  }

  lemma AssignKeeps(c: Cluster, n: NodeKey, req: Request, c': Cluster)
    requires Inv(c) && Next(c, Assign(n, req), c')
    ensures Inv(c')
  {
    var node := c.nodes[n];
    var block := AssignVersions(node.counter, req.ops);
    AssignLogOk(c, n, req, c');
    LogGrows(c.log, block);
    assert MessageOk(Lease(req), c.log);
    forall i | 0 <= i < |block|
      ensures block[i] in c'.log && OpOk(block[i], c'.log)
    {
      assert c'.log[|c.log| + i] == block[i];
    }
    CommitOk(node.engine, block, c'.log);
    StoreAllOk(node.store, block, c'.log);
  }

  lemma SendGossipKeeps(c: Cluster, n: NodeKey, to: NodeKey, batch: seq<Operation>, c': Cluster)
    requires Inv(c) && Next(c, SendGossip(n, to, batch), c')
    ensures Inv(c')
  {
  }

  lemma LogInfected(c: Cluster)
    requires LogOk(c)
    ensures forall o | o in c.log :: o.state == Infected
  {
  }

  /** A step that changes one node, but not its counter, and sends one message. */
  lemma UpdateKeeps(c: Cluster, n: NodeKey, node: Node, m: Message)
    requires Inv(c) && n in c.nodes && node.counter == c.nodes[n].counter
    requires EngineOk(node.engine, c.log) && StoreOk(node.store, c.log) && MessageOk(m, c.log)
    ensures Inv(c.(nodes := c.nodes[n := node], net := c.net + {m}))
  {
  }

  lemma GossipedOk(node: Node, batch: seq<Operation>, log: seq<Operation>)
    requires EngineOk(node.engine, log) && StoreOk(node.store, log) && forall i | 0 <= i < |batch| :: batch[i] in log
    requires forall o | o in log :: o.state == Infected
    ensures EngineOk(Gossiped(node, batch).engine, log) && StoreOk(Gossiped(node, batch).store, log)
  {
    var accepted := Accepted(node.engine, batch);
    SplitMembers(node.engine, batch);
    forall i | 0 <= i < |accepted|
      ensures accepted[i] in log && OpOk(accepted[i], log)
    {
      assert accepted[i] in batch;
    }
    CommitOk(node.engine, accepted, log);
    StoreAllOk(node.store, accepted, log);
  }

  lemma RejectedKnown(e: Engine, batch: seq<Operation>, log: seq<Operation>)
    requires forall i | 0 <= i < |batch| :: batch[i] in log
    ensures forall i | 0 <= i < |Rejected(e, batch)| :: Known(log, Rejected(e, batch)[i].ToDigest())
  {
  }

  lemma ReceiveGossipKeeps(c: Cluster, n: NodeKey, sender: NodeKey, batch: seq<Operation>, c': Cluster)
    requires Inv(c) && Next(c, ReceiveGossip(n, sender, batch), c')
    ensures Inv(c')
  {
    assert MessageOk(Gossip(n, sender, batch), c.log);
    LogInfected(c);
    GossipedOk(c.nodes[n], batch, c.log);
    RejectedKnown(c.nodes[n].engine, batch, c.log);
    UpdateKeeps(c, n, Gossiped(c.nodes[n], batch), Feedback(sender, ToDigests(Rejected(c.nodes[n].engine, batch))));
  }

  /** What the recovery transform lets through is marked recovered. */
  lemma {:induction false} TransformOk(r: Repetitions, threshold: nat, ops: seq<Operation>, log: seq<Operation>)
    requires forall i | 0 <= i < |ops| :: Known(log, ops[i].ToDigest())
    ensures forall i | 0 <= i < |Transform(r, threshold, ops).out| :: OpOk(Transform(r, threshold, ops).out[i], log)
  {
    if ops != [] {
      TransformOk(r, threshold, ops[..|ops| - 1], log);
    }
  }

  lemma ReceiveFeedbackKeeps(c: Cluster, n: NodeKey, digests: seq<Digest>, threshold: nat, c': Cluster)
    requires Inv(c) && Next(c, ReceiveFeedback(n, digests, threshold), c')
    ensures Inv(c')
  {
    var node := c.nodes[n];
    var ops := ToOperations(digests);
    assert MessageOk(Feedback(n, digests), c.log);
    forall i | 0 <= i < |ops|
      ensures Known(c.log, ops[i].ToDigest())
    {
      assert ops[i].ToDigest() == digests[i];
    }
    TransformOk(node.repetitions, threshold, ops, c.log);
    StoreAllOk(node.store, Transform(node.repetitions, threshold, ops).out, c.log);
  }

  lemma StepKeeps(c: Cluster, step: Step, c': Cluster)
    requires Inv(c) && Next(c, step, c')
    ensures Inv(c')
  {
    match step
    case BeginTx(n, id) =>
    case ApplyTx(n, id, op) =>
    case CommitTx(n, id, reqs) => CommitTxKeeps(c, n, id, reqs, c');
    case Assign(n, req) => AssignKeeps(c, n, req, c');
    case SendGossip(n, to, batch) => SendGossipKeeps(c, n, to, batch, c');
    case ReceiveGossip(n, sender, batch) => ReceiveGossipKeeps(c, n, sender, batch, c');
    case ReceiveFeedback(n, digests, threshold) => ReceiveFeedbackKeeps(c, n, digests, threshold, c');
  }

  // ----- Whole runs -----

  ghost predicate IsRun(run: seq<Cluster>, steps: seq<Step>) {
    && |run| == |steps| + 1 && Init(run[0])
    && forall i | 0 <= i < |steps| :: Next(run[i], steps[i], run[i + 1])
  }

  lemma {:induction false} RunKeepsInvariant(run: seq<Cluster>, steps: seq<Step>, i: nat)
    requires IsRun(run, steps) && i < |run|
    ensures Inv(run[i])
  {
    if i > 0 {
      RunKeepsInvariant(run, steps, i - 1);
      StepKeeps(run[i - 1], steps[i - 1], run[i]);
    }
  }

  /**
   In every state of every run: no two assigned operations share a leaseholder and a version; each node's data agrees
   with its digests, a Set digest's key holding the value assigned with that version and a Delete digest's key absent;
   and every infected operation in a store or a gossip message is an assigned one, value included.
   */
  lemma DataAgreesWithDigests(run: seq<Cluster>, steps: seq<Step>, i: nat, n: NodeKey)
    requires IsRun(run, steps) && i < |run| && n in run[i].nodes
    ensures LogOk(run[i])
    ensures forall k | k in run[i].nodes[n].engine.digests :: exists o | o in run[i].log :: Holds(run[i].nodes[n].engine, k, o)
    ensures forall k | k in run[i].nodes[n].engine.data :: k in run[i].nodes[n].engine.digests
    ensures forall k | k in run[i].nodes[n].store && run[i].nodes[n].store[k].state == Infected :: run[i].nodes[n].store[k] in run[i].log
    ensures forall to, sender, ops | Gossip(to, sender, ops) in run[i].net :: forall j | 0 <= j < |ops| :: ops[j] in run[i].log
  {
    RunKeepsInvariant(run, steps, i);
    forall to, sender, ops | Gossip(to, sender, ops) in run[i].net
      ensures forall j | 0 <= j < |ops| :: ops[j] in run[i].log
    {
      assert MessageOk(Gossip(to, sender, ops), run[i].log);
    }
  }

  /** Operations of the log with the same leaseholder and version are one and the same. */
  lemma LogUnique(c: Cluster, o: Operation, p: Operation)
    requires LogOk(c) && o in c.log && p in c.log && o.leaseholder == p.leaseholder && o.version == p.version
    ensures o == p
  {
  }

  /** The assigned operations of any run meet what convergence asks of the operations nodes exchange. */
  lemma LogCoherent(run: seq<Cluster>, steps: seq<Step>, i: nat)
    requires IsRun(run, steps) && i < |run|
    ensures Coherent(run[i].log)
  {
    RunKeepsInvariant(run, steps, i);
    var log := run[i].log;
    forall o, p | o in log && p in log && o.key == p.key && o.version == p.version && o.leaseholder == p.leaseholder
      ensures o.variant == p.variant && o.value == p.value
    {
      LogUnique(run[i], o, p);
    }
  }

  /** Two replicas that know the same version and leaseholder for a key hold the same value for it, or both hold none. */
  lemma SameVersionSameValue(run: seq<Cluster>, steps: seq<Step>, i: nat, n: NodeKey, m: NodeKey, k: Key)
    requires IsRun(run, steps) && i < |run| && n in run[i].nodes && m in run[i].nodes
    requires var e, f := run[i].nodes[n].engine, run[i].nodes[m].engine;
             && k in e.digests && k in f.digests
             && e.digests[k].version == f.digests[k].version && e.digests[k].leaseholder == f.digests[k].leaseholder
    ensures SameAt(run[i].nodes[n].engine, run[i].nodes[m].engine, k)
  {
    RunKeepsInvariant(run, steps, i);
    var c := run[i];
    var o :| o in c.log && Holds(c.nodes[n].engine, k, o);
    var p :| p in c.log && Holds(c.nodes[m].engine, k, p);
    LogUnique(c, o, p);
  }

  // ----- One leaseholder per key -----

  /** Transactions create a key only under the leaseholder `owner` names for it. */
  predicate Disciplined(c: Cluster, step: Step, owner: Key -> NodeKey) {
    step.ApplyTx? && step.n in c.nodes ==>
      var digests := c.nodes[step.n].engine.digests;
      step.op.key !in digests && Allocate(digests, step.n, step.op).Leased? ==>
        Allocate(digests, step.n, step.op).op.leaseholder == owner(step.op.key)
  }

  predicate TxOwned(tx: Tx, owner: Key -> NodeKey) {
    forall i | 0 <= i < |tx.digests| :: tx.digests[i].leaseholder == owner(tx.digests[i].key)
  }

  predicate OpsOwned(ops: seq<Operation>, owner: Key -> NodeKey) {
    forall i | 0 <= i < |ops| :: ops[i].leaseholder == owner(ops[i].key)
  }

  /** Every operation anywhere carries the leaseholder of its key. */
  predicate Owned(c: Cluster, owner: Key -> NodeKey) {
    && OpsOwned(c.log, owner)
    && (forall n, id | n in c.nodes && id in c.nodes[n].txs :: TxOwned(c.nodes[n].txs[id], owner))
    && (forall m | m in c.net && m.Lease? :: OpsOwned(m.req.ops, owner))
  }

  /** The lease of a key survives: what a node knows of it, deleted or not, names its owner. */
  lemma DigestOwned(c: Cluster, owner: Key -> NodeKey, n: NodeKey, k: Key)
    requires Inv(c) && Owned(c, owner) && n in c.nodes && k in c.nodes[n].engine.digests
    ensures c.nodes[n].engine.digests[k].leaseholder == owner(k)
  {
  }

  lemma ApplyTxOwned(c: Cluster, n: NodeKey, id: nat, op: Operation, c': Cluster, owner: Key -> NodeKey)
    requires Inv(c) && Owned(c, owner) && Next(c, ApplyTx(n, id, op), c') && Disciplined(c, ApplyTx(n, id, op), owner)
    ensures Owned(c', owner)
  {
  }

  lemma CommitTxOwned(c: Cluster, n: NodeKey, id: nat, reqs: Requests, c': Cluster, owner: Key -> NodeKey)
    requires Inv(c) && Owned(c, owner) && Next(c, CommitTx(n, id, reqs), c')
    ensures Owned(c', owner)
  {
    var tx := c.nodes[n].txs[id];
    assert TxOwned(tx, owner);
    forall m | m in LeaseMessages(reqs)
      ensures OpsOwned(m.req.ops, owner)
    {
      GroupMembers(tx.cache, tx.digests, m.req.leaseholder);
    }
  }

  lemma AssignOwned(c: Cluster, n: NodeKey, req: Request, c': Cluster, owner: Key -> NodeKey)
    requires Inv(c) && Owned(c, owner) && Next(c, Assign(n, req), c')
    ensures Owned(c', owner)
  {
  }

  lemma StepKeepsOwned(c: Cluster, step: Step, c': Cluster, owner: Key -> NodeKey)
    requires Inv(c) && Owned(c, owner) && Next(c, step, c') && Disciplined(c, step, owner)
    ensures Owned(c', owner)
  {
    match step
    case ApplyTx(n, id, op) => ApplyTxOwned(c, n, id, op, c', owner);
    case CommitTx(n, id, reqs) => CommitTxOwned(c, n, id, reqs, c', owner);
    case Assign(n, req) => AssignOwned(c, n, req, c', owner);
    case BeginTx(n, id) => assert TxOwned(c'.nodes[n].txs[id], owner);
    case _ =>
  }

  /** Committing leaves each key's digest as it was or takes it from one of the operations. */
  lemma {:induction false} CommitDigest(e: Engine, ops: seq<Operation>, k: Key)
    requires k in e.digests
    ensures k in Commit(e, ops).digests
    ensures Commit(e, ops).digests[k] == e.digests[k]
            || exists o | o in ops :: o.key == k && Commit(e, ops).digests[k] == o.ToDigest()
    decreases ops
  {
    if ops != [] {
      CommitDigest(ApplyOp(e, ops[0]), ops[1..], k);
      assert ops[0] in ops && forall o | o in ops[1..] :: o in ops;
    }
  }

  /** Versions a node knows never decrease, on the filtered path and on the assigner's path that skips the filter. */
  lemma StepVersionsMonotone(c: Cluster, step: Step, c': Cluster, owner: Key -> NodeKey, n: NodeKey, k: Key)
    requires Inv(c) && Owned(c, owner) && Next(c, step, c')
    requires n in c.nodes && k in c.nodes[n].engine.digests
    ensures n in c'.nodes && k in c'.nodes[n].engine.digests
    ensures c.nodes[n].engine.digests[k].version <= c'.nodes[n].engine.digests[k].version
  {
    var e := c.nodes[n].engine;
    if step.Assign? && step.n == n {
      assert MessageOk(Lease(step.req), c.log) && OpsOwned(Lease(step.req).req.ops, owner);
      DigestOwned(c, owner, n, k);
      var known :| known in c.log && Holds(e, k, known);
      var block := AssignVersions(c.nodes[n].counter, step.req.ops);
      CommitDigest(e, block, k);
    } else if step.ReceiveGossip? && step.n == n {
      SplitMembers(e, step.batch);
      CommitDigest(e, Accepted(e, step.batch), k);
    }
  }

  lemma {:induction false} RunOwned(run: seq<Cluster>, steps: seq<Step>, owner: Key -> NodeKey, i: nat)
    requires IsDisciplinedRun(run, steps, owner) && i < |run|
    ensures Inv(run[i]) && Owned(run[i], owner)
  {
    RunKeepsInvariant(run, steps, i);
    if i > 0 {
      RunOwned(run, steps, owner, i - 1);
      StepKeepsOwned(run[i - 1], steps[i - 1], run[i], owner);
    }
  }

  /** A node knows the key, under its owner's lease, at version `v` or later. */
  predicate KnowsFrom(c: Cluster, owner: Key -> NodeKey, n: NodeKey, k: Key, v: int) {
    && n in c.nodes && k in c.nodes[n].engine.digests
    && c.nodes[n].engine.digests[k].leaseholder == owner(k)
    && v <= c.nodes[n].engine.digests[k].version
  }

  lemma StepKeepsKnowledge(c: Cluster, step: Step, c': Cluster, owner: Key -> NodeKey, n: NodeKey, k: Key, v: int)
    requires Inv(c) && Owned(c, owner) && Next(c, step, c') && Inv(c') && Owned(c', owner)
    requires KnowsFrom(c, owner, n, k, v)
    ensures KnowsFrom(c', owner, n, k, v)
  {
    StepVersionsMonotone(c, step, c', owner, n, k);
    DigestOwned(c', owner, n, k);
  }

  ghost predicate IsDisciplinedRun(run: seq<Cluster>, steps: seq<Step>, owner: Key -> NodeKey) {
    IsRun(run, steps) && forall j | 0 <= j < |steps| :: Disciplined(run[j], steps[j], owner)
  }

  lemma RunStepKeepsKnowledge(run: seq<Cluster>, steps: seq<Step>, owner: Key -> NodeKey, j: nat, n: NodeKey, k: Key, v: int)
    requires IsDisciplinedRun(run, steps, owner) && j < |steps| && KnowsFrom(run[j], owner, n, k, v)
    ensures KnowsFrom(run[j + 1], owner, n, k, v)
  {
    RunOwned(run, steps, owner, j);
    RunOwned(run, steps, owner, j + 1);
    StepKeepsKnowledge(run[j], steps[j], run[j + 1], owner, n, k, v);
  }

  lemma {:induction false} KnowledgeLasts(run: seq<Cluster>, steps: seq<Step>, owner: Key -> NodeKey, i: nat, j: nat,
                                          n: NodeKey, k: Key, v: int)
    requires IsDisciplinedRun(run, steps, owner) && i <= j < |run| && KnowsFrom(run[i], owner, n, k, v)
    ensures KnowsFrom(run[j], owner, n, k, v)
    decreases j
  {
    if i < j {
      KnowledgeLasts(run, steps, owner, i, j - 1, n, k, v);
      RunStepKeepsKnowledge(run, steps, owner, j - 1, n, k, v);
    }
  }

  /**
   When every key is only ever created under one leaseholder: all operations assigned for a key name that leaseholder, a
   node that has learnt of a key never forgets its lease, and the version it knows for the key never decreases.
   */
  lemma LeaseAndVersionsStable(run: seq<Cluster>, steps: seq<Step>, owner: Key -> NodeKey, i: nat, j: nat, n: NodeKey, k: Key)
    requires IsDisciplinedRun(run, steps, owner) && i <= j < |run|
    requires n in run[i].nodes && k in run[i].nodes[n].engine.digests
    ensures OpsOwned(run[j].log, owner)
    ensures KnowsFrom(run[j], owner, n, k, run[i].nodes[n].engine.digests[k].version)
  {
    RunOwned(run, steps, owner, i);
    DigestOwned(run[i], owner, n, k);
    KnowledgeLasts(run, steps, owner, i, j, n, k, run[i].nodes[n].engine.digests[k].version);
    RunOwned(run, steps, owner, j);
  }
}
