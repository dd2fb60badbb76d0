/**
 What nodes end up holding in a cluster where requests are assigned versions without passing the version filter
 (aspen/internal/kv/kv.go:209-214): with one leaseholder per key replicas still converge, and without that the
 assigner can take a known version back.
 */
module KvReplicas {
  import opened KvOperation
  import opened KvVersion
  import opened KvTx
  import opened KvCluster

  // ----- Replicas converge -----

  /** The operations node `n` takes in with a step: a block it assigns, or a batch it is sent. */
  function Taken(c: Cluster, step: Step, n: NodeKey): seq<Operation> {
    if step.n != n || n !in c.nodes then []
    else if step.Assign? then AssignVersions(c.nodes[n].counter, step.req.ops)
    else if step.ReceiveGossip? then step.batch
    else []
  }

  /** All operations node `n` has taken in before state `i` of a run. */
  function Absorbed(run: seq<Cluster>, steps: seq<Step>, n: NodeKey, i: nat): seq<Operation>
    requires i <= |steps| && |run| == |steps| + 1
  {
    if i == 0 then [] else Absorbed(run, steps, n, i - 1) + Taken(run[i - 1], steps[i - 1], n)
  }

  /** Each operation is newer than what the engine knows of its key and than the earlier ones for that key. */
  predicate Fresh(e: Engine, ops: seq<Operation>) {
    && (forall i | 0 <= i < |ops| && ops[i].key in e.digests :: e.digests[ops[i].key].version < ops[i].version)
    && (forall i, j | 0 <= i < j < |ops| && ops[i].key == ops[j].key :: ops[i].version < ops[j].version)
  }

  /** Operations that are all newer would pass the filter, so that skipping it makes no difference. */
  lemma {:induction false} FreshCommit(e: Engine, ops: seq<Operation>)
    requires Fresh(e, ops)
    ensures Commit(e, ops) == Sequential(e, ops)
    decreases ops
  {
    if ops != [] {
      FreshCommit(ApplyOp(e, ops[0]), ops[1..]);
    }
  }

  lemma AssignedFresh(c: Cluster, n: NodeKey, req: Request, c': Cluster, owner: Key -> NodeKey)
    requires Inv(c) && Owned(c, owner) && Next(c, Assign(n, req), c')
    ensures Fresh(c.nodes[n].engine, AssignVersions(c.nodes[n].counter, req.ops))
  {
    var e, block := c.nodes[n].engine, AssignVersions(c.nodes[n].counter, req.ops);
    assert MessageOk(Lease(req), c.log) && OpsOwned(Lease(req).req.ops, owner);
    forall i | 0 <= i < |block| && block[i].key in e.digests
      ensures e.digests[block[i].key].version < block[i].version
    {
      DigestOwned(c, owner, n, block[i].key);
      var known :| known in c.log && Holds(e, block[i].key, known);
    }
  }

  /** A step takes a node's engine through the filter, one operation at a time, whichever path it went. */
  lemma StepAbsorbs(c: Cluster, step: Step, c': Cluster, owner: Key -> NodeKey, n: NodeKey)
    requires Inv(c) && Owned(c, owner) && Next(c, step, c') && n in c.nodes
    ensures n in c'.nodes && c'.nodes[n].engine == Sequential(c.nodes[n].engine, Taken(c, step, n))
  {
    if step.n == n && step.Assign? {
      AssignedFresh(c, n, step.req, c', owner);
      FreshCommit(c.nodes[n].engine, AssignVersions(c.nodes[n].counter, step.req.ops));
    } else if step.n == n && step.ReceiveGossip? {
      assert MessageOk(Gossip(n, step.sender, step.batch), c.log);
      BatchIsSequential(c.nodes[n].engine, step.batch);
    }
  }

  /** With one leaseholder per key, a node's engine is what filtering all it has taken in, one at a time, makes of an empty one. */
  lemma {:induction false} EngineOfAbsorbed(run: seq<Cluster>, steps: seq<Step>, owner: Key -> NodeKey, n: NodeKey, i: nat)
    requires IsDisciplinedRun(run, steps, owner) && i < |run| && n in run[0].nodes
    ensures n in run[i].nodes && run[i].nodes[n].engine == Sequential(EMPTY_ENGINE, Absorbed(run, steps, n, i))
  {
    if i > 0 {
      EngineOfAbsorbed(run, steps, owner, n, i - 1);
      RunOwned(run, steps, owner, i - 1);
      StepAbsorbs(run[i - 1], steps[i - 1], run[i], owner, n);
      SequentialConcat(EMPTY_ENGINE, Absorbed(run, steps, n, i - 1), Taken(run[i - 1], steps[i - 1], n));
    }
  }

  lemma {:induction false} LogLasts(run: seq<Cluster>, steps: seq<Step>, i: nat, j: nat)
    requires IsRun(run, steps) && i <= j < |run|
    ensures forall o | o in run[i].log :: o in run[j].log
    decreases j
  {
    if i < j {
      LogLasts(run, steps, i, j - 1);
      assert Next(run[j - 1], steps[j - 1], run[j]);
    }
  }

  lemma {:induction false} AbsorbedLogged(run: seq<Cluster>, steps: seq<Step>, n: NodeKey, i: nat)
    requires IsRun(run, steps) && i < |run|
    ensures forall o | o in Absorbed(run, steps, n, i) :: o in run[i].log
  {
    if i > 0 {
      AbsorbedLogged(run, steps, n, i - 1);
      LogLasts(run, steps, i - 1, i);
      RunKeepsInvariant(run, steps, i - 1);
      TakenLogged(run[i - 1], steps[i - 1], run[i], n);
    }
  }

  lemma TakenLogged(c: Cluster, step: Step, c': Cluster, n: NodeKey)
    requires Inv(c) && Next(c, step, c')
    ensures forall o | o in Taken(c, step, n) :: o in c'.log
  {
    if step.n == n && step.ReceiveGossip? {
      SentLogged(c, n, step.sender, step.batch);
      assert c'.log == c.log;
    } else if step.n == n && step.Assign? {
      assert c'.log == c.log + Taken(c, step, n);
    }
  }

  lemma SentLogged(c: Cluster, n: NodeKey, sender: NodeKey, batch: seq<Operation>)
    requires Inv(c) && Gossip(n, sender, batch) in c.net
    ensures forall o | o in batch :: o in c.log
  {
    assert MessageOk(Gossip(n, sender, batch), c.log);
  }

  lemma AbsorbedCoherent(run: seq<Cluster>, steps: seq<Step>, n: NodeKey, i: nat)
    requires IsRun(run, steps) && i < |run|
    ensures Coherent(Absorbed(run, steps, n, i))
  {
    AbsorbedLogged(run, steps, n, i);
    LogCoherent(run, steps, i);
    SomeCoherent(run[i].log, Absorbed(run, steps, n, i));
  }

  lemma SomeCoherent(log: seq<Operation>, ops: seq<Operation>)
    requires Coherent(log) && forall o | o in ops :: o in log
    ensures Coherent(ops)
  {
  }

  /** With one leaseholder per key, each node holds for every key a newest of the operations it has taken in. */
  lemma NodeHoldsNewest(run: seq<Cluster>, steps: seq<Step>, owner: Key -> NodeKey, n: NodeKey, i: nat)
    requires IsDisciplinedRun(run, steps, owner) && i < |run| && n in run[0].nodes
    ensures n in run[i].nodes && HoldsNewest(run[i].nodes[n].engine, Absorbed(run, steps, n, i))
  {
    EngineOfAbsorbed(run, steps, owner, n, i);
    SequentialHoldsNewest(Absorbed(run, steps, n, i));
  }

  /** With one leaseholder per key, whatever a node has taken in it rejects ever after. */
  lemma AbsorbedIsKnown(run: seq<Cluster>, steps: seq<Step>, owner: Key -> NodeKey, n: NodeKey, i: nat, op: Operation)
    requires IsDisciplinedRun(run, steps, owner) && i < |run| && n in run[0].nodes && op in Absorbed(run, steps, n, i)
    ensures n in run[i].nodes && !Filter(run[i].nodes[n].engine, op)
  {
    EngineOfAbsorbed(run, steps, owner, n, i);
    SequentialKnows(EMPTY_ENGINE, Absorbed(run, steps, n, i), op);
  }

  /** The digests of what the filter rejects name exactly the operations it rejects. */
  lemma RejectedDigests(e: Engine, batch: seq<Operation>, op: Operation)
    requires DistinctKeys(batch) && op in batch
    ensures op.ToDigest() in ToDigests(Rejected(e, batch)) <==> !Filter(e, op)
  {
    var rejected := Rejected(e, batch);
    var digests := ToDigests(rejected);
    SplitMembers(e, batch);
    if !Filter(e, op) {
      var i :| 0 <= i < |rejected| && rejected[i] == op;
      assert digests[i] == op.ToDigest();
    } else if op.ToDigest() in digests {
      var i :| 0 <= i < |rejected| && digests[i] == op.ToDigest();
      SameDigestSameOp(batch, rejected[i], op);
    }
  }

  /** The feedback a node sends is about exactly those of the operations it was sent that are not new to it. */
  lemma FeedbackExact(c: Cluster, n: NodeKey, sender: NodeKey, batch: seq<Operation>, c': Cluster) returns (digests: seq<Digest>)
    requires Inv(c) && Next(c, ReceiveGossip(n, sender, batch), c')
    ensures c'.net == c.net + {Feedback(sender, digests)}
    ensures forall op | op in batch :: op.ToDigest() in digests <==> !Filter(c.nodes[n].engine, op)
    ensures forall i | 0 <= i < |digests| :: exists op | op in batch :: op.ToDigest() == digests[i]
  {
    var e := c.nodes[n].engine;
    digests := ToDigests(Rejected(e, batch));
    assert MessageOk(Gossip(n, sender, batch), c.log);
    forall op | op in batch
      ensures op.ToDigest() in digests <==> !Filter(e, op)
    {
      RejectedDigests(e, batch, op);
    }
    SplitMembers(e, batch);
    assert forall i | 0 <= i < |digests| :: Rejected(e, batch)[i] in batch;
  }

  lemma SameDigestSameOp(batch: seq<Operation>, o: Operation, p: Operation)
    requires DistinctKeys(batch) && o in batch && p in batch && o.ToDigest() == p.ToDigest()
    ensures o == p
  {
  }

  /** A node that is sent nothing new tells the sender exactly what it was sent, and is itself unchanged. */
  lemma KnownIsFedBack(run: seq<Cluster>, steps: seq<Step>, owner: Key -> NodeKey, i: nat, n: NodeKey, sender: NodeKey,
                       batch: seq<Operation>)
    requires IsDisciplinedRun(run, steps, owner) && i < |steps| && n in run[0].nodes
    requires steps[i] == ReceiveGossip(n, sender, batch) && forall op | op in batch :: op in Absorbed(run, steps, n, i)
    ensures run[i + 1] == run[i].(net := run[i].net + {Feedback(sender, ToDigests(batch))})
  {
    EngineOfAbsorbed(run, steps, owner, n, i);
    var node := run[i].nodes[n];
    forall j | 0 <= j < |batch|
      ensures !Filter(node.engine, batch[j])
    {
      AbsorbedIsKnown(run, steps, owner, n, i, batch[j]);
    }
    AllKnown(node.engine, batch);
    assert Gossiped(node, batch) == node;
    assert Next(run[i], steps[i], run[i + 1]);
    assert run[i].nodes[n := node] == run[i].nodes;
  }

  /**
   Replicas converge in every run with one leaseholder per key: two nodes, at any two times, that have taken in the same
   operations, by assigning them or by gossip, in any order and number, hold the same data and digests.
   */
  lemma ReplicasConverge(run: seq<Cluster>, steps: seq<Step>, owner: Key -> NodeKey, n: NodeKey, i: nat, m: NodeKey, j: nat)
    requires IsDisciplinedRun(run, steps, owner) && i < |run| && j < |run| && n in run[0].nodes && m in run[0].nodes
    requires forall o :: o in Absorbed(run, steps, n, i) <==> o in Absorbed(run, steps, m, j)
    ensures n in run[i].nodes && m in run[j].nodes && run[i].nodes[n].engine == run[j].nodes[m].engine
  {
    EngineOfAbsorbed(run, steps, owner, n, i);
    EngineOfAbsorbed(run, steps, owner, m, j);
    AbsorbedCoherent(run, steps, m, j);
    SequentialConverges(Absorbed(run, steps, m, j), Absorbed(run, steps, n, i));
  }

  /** A node that has received what another sent it knows every operation the other was spreading when it sent it. */
  lemma GossipSpreads(run: seq<Cluster>, steps: seq<Step>, i: nat, j: nat, n: NodeKey, to: NodeKey, batch: seq<Operation>, k: Key)
    requires IsRun(run, steps) && i < |steps| && j < |steps|
    requires steps[i] == SendGossip(n, to, batch) && steps[j] == ReceiveGossip(to, n, batch)
    ensures n in run[i].nodes && to in run[j + 1].nodes
    ensures k in run[i].nodes[n].store && run[i].nodes[n].store[k].state == Infected ==>
              !Filter(run[j + 1].nodes[to].engine, run[i].nodes[n].store[k])
  {
    RunKeepsInvariant(run, steps, j);
    assert Next(run[i], steps[i], run[i + 1]) && Next(run[j], steps[j], run[j + 1]);
    assert MessageOk(Gossip(to, n, batch), run[j].log);
    var store, e := run[i].nodes[n].store, run[j].nodes[to].engine;
    if k in store && store[k].state == Infected {
      BatchIsSequential(e, batch);
      SequentialKnows(e, batch, store[k]);
    }
  }

  // ----- Feedback -----

  /** The operations node `n` is told with a step that others know. */
  function Told(step: Step, n: NodeKey): seq<Operation> {
    if step.n == n && step.ReceiveFeedback? then ToOperations(step.digests) else []
  }

  /** All it has been told of before state `i` of a run. */
  function FedBack(steps: seq<Step>, n: NodeKey, i: nat): seq<Operation>
    requires i <= |steps|
  {
    if i == 0 then [] else FedBack(steps, n, i - 1) + Told(steps[i - 1], n)
  }

  /** The recovery threshold is a constant of the cluster. */
  predicate FixedThreshold(steps: seq<Step>, threshold: nat) {
    forall i | 0 <= i < |steps| && steps[i].ReceiveFeedback? :: steps[i].threshold == threshold
  }

  /** The counts of node `n` are those that what it was told leads to. */
  predicate Counted(c: Cluster, n: NodeKey, threshold: nat, told: seq<Operation>) {
    n in c.nodes && c.nodes[n].repetitions == Transform(map[], threshold, told).repetitions
  }

  /** From one state to the next the counts of node `n` change by what it is told in between. */
  predicate CountsOn(c: Cluster, c': Cluster, n: NodeKey, threshold: nat, told: seq<Operation>) {
    n in c.nodes ==> n in c'.nodes && c'.nodes[n].repetitions == Transform(c.nodes[n].repetitions, threshold, told).repetitions
  }

  lemma StepCounts(c: Cluster, step: Step, c': Cluster, threshold: nat, n: NodeKey)
    requires Next(c, step, c') && (step.ReceiveFeedback? ==> step.threshold == threshold)
    ensures CountsOn(c, c', n, threshold, Told(step, n))
  {
  }

  lemma {:induction false} CountedAlong(cs: seq<Cluster>, steps: seq<Step>, threshold: nat, n: NodeKey, i: nat)
    requires |cs| == |steps| + 1 && i < |cs| && Counted(cs[0], n, threshold, [])
    requires forall k | 0 <= k < |steps| :: CountsOn(cs[k], cs[k + 1], n, threshold, Told(steps[k], n))
    ensures Counted(cs[i], n, threshold, FedBack(steps, n, i))
  {
    if i > 0 {
      CountedAlong(cs, steps, threshold, n, i - 1);
      assert CountsOn(cs[i - 1], cs[i - 1 + 1], n, threshold, Told(steps[i - 1], n));
      TransformConcat(map[], threshold, FedBack(steps, n, i - 1), Told(steps[i - 1], n));
    }
  }

  lemma FeedbackCounted(run: seq<Cluster>, steps: seq<Step>, threshold: nat, n: NodeKey, i: nat)
    requires IsRun(run, steps) && FixedThreshold(steps, threshold) && i < |run| && n in run[0].nodes
    ensures Counted(run[i], n, threshold, FedBack(steps, n, i))
  {
    forall k | 0 <= k < |steps|
      ensures CountsOn(run[k], run[k + 1], n, threshold, Told(steps[k], n))
    {
      StepCounts(run[k], steps[k], run[k + 1], threshold, n);
    }
    CountedAlong(run, steps, threshold, n, i);
  }

  /**
   In every run a node stops spreading an operation exactly each time it is told of it after having been told of it a
   positive multiple of `threshold + 1` times, in whatever messages.
   */
  lemma RecoversEvery(run: seq<Cluster>, steps: seq<Step>, threshold: nat, i: nat, n: NodeKey, digests: seq<Digest>)
    returns (recovered: seq<Operation>)
    requires IsRun(run, steps) && FixedThreshold(steps, threshold) && i < |steps| && n in run[0].nodes
    requires steps[i] == ReceiveFeedback(n, digests, threshold)
    ensures AllDue(threshold, FedBack(steps, n, i + 1)) == AllDue(threshold, FedBack(steps, n, i)) + recovered
    ensures n in run[i].nodes && run[i + 1].nodes[n].store == StoreAll(run[i].nodes[n].store, recovered)
  {
    FeedbackCounted(run, steps, threshold, n, i);
    var ops := ToOperations(digests);
    recovered := Transform(run[i].nodes[n].repetitions, threshold, ops).out;
    TransformConcat(map[], threshold, FedBack(steps, n, i), ops);
    TransformIsPeriodic(threshold, FedBack(steps, n, i));
    TransformIsPeriodic(threshold, FedBack(steps, n, i + 1));
    assert Next(run[i], steps[i], run[i + 1]);
  }

  // ----- Without one leaseholder per key -----

  lemma {:induction false} CommitUntouched(e: Engine, ops: seq<Operation>, k: Key)
    requires forall i | 0 <= i < |ops| :: ops[i].key != k
    ensures SameAt(Commit(e, ops), e, k)
    decreases ops
  {
    if ops != [] {
      CommitUntouched(ApplyOp(e, ops[0]), ops[1..], k);
    }
  }

  lemma CommitLast(e: Engine, ops: seq<Operation>, k: Key, j: nat)
    requires LastFor(ops, k, j)
    ensures Holds(Commit(e, ops), k, ops[j])
  {
    var upTo, rest := ops[..j + 1], ops[j + 1..];
    assert ops == upTo + rest && upTo == ops[..j] + [ops[j]];
    CommitConcat(e, upTo, rest);
    CommitConcat(e, ops[..j], [ops[j]]);
    CommitUntouched(Commit(e, upTo), rest, k);
  }

  /**
   The assigner does not look at the digests it overwrites.  It takes the version a node knows for a key back exactly
   when that version is ahead of the one the last operation for the key is assigned, which only another leaseholder's
   can be.  Keys the request does not mention keep theirs.
   */
  lemma AssignGoesBackIff(c: Cluster, n: NodeKey, req: Request, c': Cluster, k: Key)
    requires Inv(c) && Next(c, Assign(n, req), c') && k in c.nodes[n].engine.digests
    ensures k in c'.nodes[n].engine.digests
    ensures forall j: nat | LastFor(req.ops, k, j) ::
              var before, given := c.nodes[n].engine.digests[k], c.nodes[n].counter + j + 1;
              && (c'.nodes[n].engine.digests[k].version < before.version <==> before.version > given)
              && (before.version > given ==> before.leaseholder != n)
    ensures (forall i | 0 <= i < |req.ops| :: req.ops[i].key != k) ==>
              c'.nodes[n].engine.digests[k] == c.nodes[n].engine.digests[k]
  {
    var e := c.nodes[n].engine;
    BlockDigest(e, c.nodes[n].counter, req.ops, k);
    var known :| known in c.log && Holds(e, k, known);
  }

  /** What committing a block of assigned versions leaves as the digest of a known key. */
  lemma BlockDigest(e: Engine, counter: nat, ops: seq<Operation>, k: Key)
    requires k in e.digests
    ensures var after := Commit(e, AssignVersions(counter, ops)).digests;
            && k in after
            && (forall j: nat | LastFor(ops, k, j) :: after[k].version == counter + j + 1)
            && ((forall i | 0 <= i < |ops| :: ops[i].key != k) ==> after[k] == e.digests[k])
  {
    var block := AssignVersions(counter, ops);
    CommitDigest(e, block, k);
    forall j: nat | LastFor(ops, k, j)
      ensures Commit(e, block).digests[k].version == counter + j + 1
    {
      assert LastFor(block, k, j);
      CommitLast(e, block, k, j);
    }
    if forall i | 0 <= i < |ops| :: ops[i].key != k {
      CommitUntouched(e, block, k);
    }
  }

  // ----- A run in which a version goes back -----

  /** Asks for key "k" to be set, under whatever lease it has or gets. */
  const SET_K := Operation("k", "v", Set, 0, DEFAULT_LEASEHOLDER, Infected)

  function SetK(lh: NodeKey, version: int): Operation {
    Operation("k", "v", Set, version, lh, Infected)
  }

  /** Setting "k" `count` times under `lh`, without versions. */
  function Sets(lh: NodeKey, count: nat): seq<Operation> {
    seq(count, _ => SetK(lh, 0))
  }

  /** A node that knows nothing, with a transaction that has set "k" `count` times. */
  function Setting(n: NodeKey, count: nat): Node {
    EMPTY_NODE.(txs := map[0 := Tx(if count == 0 then map[] else map["k" := "v"], ToDigests(Sets(n, count)))])
  }

  lemma BeginsTx(c: Cluster, n: NodeKey)
    requires n in c.nodes && c.nodes[n] == EMPTY_NODE
    ensures Next(c, BeginTx(n, 0), c.(nodes := c.nodes[n := Setting(n, 0)]))
  {
    assert Setting(n, 0).txs[0] == Begin(map[]);
  }

  lemma SetsInTx(c: Cluster, n: NodeKey, count: nat)
    requires n in c.nodes && c.nodes[n] == Setting(n, count) && n != DEFAULT_LEASEHOLDER
    ensures Next(c, ApplyTx(n, 0, SET_K), c.(nodes := c.nodes[n := Setting(n, count + 1)]))
  {
    assert Sets(n, count + 1) == Sets(n, count) + [SetK(n, 0)];
    assert ToDigests(Sets(n, count + 1)) == ToDigests(Sets(n, count)) + [SetK(n, 0).ToDigest()];
    assert Record(Setting(n, count).txs[0], SetK(n, 0)) == Setting(n, count + 1).txs[0];
    assert Setting(n, count).txs[0 := Setting(n, count + 1).txs[0]] == Setting(n, count + 1).txs;
  }

  lemma {:induction false} GroupOfSets(n: NodeKey, count: nat)
    ensures Group(map["k" := "v"], ToDigests(Sets(n, count)), n) == Sets(n, count)
  {
    if count > 0 {
      GroupOfSets(n, count - 1);
      assert Sets(n, count) == Sets(n, count - 1) + [SetK(n, 0)];
      assert ToDigests(Sets(n, count))[..count - 1] == ToDigests(Sets(n, count - 1));
    }
  }

  lemma CommitsTx(c: Cluster, n: NodeKey, count: nat)
    requires n in c.nodes && c.nodes[n] == Setting(n, count) && count > 0
    ensures Next(c, CommitTx(n, 0, map[n := Sets(n, count)]), c.(net := c.net + {Lease(Request(n, Sets(n, count)))}))
  {
    GroupOfSets(n, count);
    var reqs: Requests := map[n := Sets(n, count)];
    var digests := ToDigests(Sets(n, count));
    assert digests[0].leaseholder == n;
    assert Leaseholders(digests) == {n};
    assert LeaseMessages(reqs) == {Lease(Request(n, reqs[n]))};
  }

  /** A run with one more step. */
  lemma After(run: seq<Cluster>, steps: seq<Step>, step: Step, c': Cluster) returns (run': seq<Cluster>, steps': seq<Step>)
    requires IsRun(run, steps) && Next(run[|steps|], step, c')
    ensures IsRun(run', steps') && run' == run + [c'] && steps' == steps + [step]
  {
    run', steps' := run + [c'], steps + [step];
    assert forall i | 0 <= i < |run| :: run'[i] == run[i];
  }

  lemma {:induction false} ReachSetting(run: seq<Cluster>, steps: seq<Step>, n: NodeKey, count: nat)
    returns (run': seq<Cluster>, steps': seq<Step>)
    requires IsRun(run, steps) && n in run[|steps|].nodes && run[|steps|].nodes[n] == EMPTY_NODE && n != DEFAULT_LEASEHOLDER
    ensures IsRun(run', steps') && run'[|steps'|] == run[|steps|].(nodes := run[|steps|].nodes[n := Setting(n, count)])
  {
    var c := run[|steps|];
    if count == 0 {
      BeginsTx(c, n);
      run', steps' := After(run, steps, BeginTx(n, 0), c.(nodes := c.nodes[n := Setting(n, 0)]));
    } else {
      run', steps' := ReachSetting(run, steps, n, count - 1);
      SetsInTx(run'[|steps'|], n, count - 1);
      var c' := c.(nodes := c.nodes[n := Setting(n, count)]);
      assert c.nodes[n := Setting(n, count - 1)][n := Setting(n, count)] == c.nodes[n := Setting(n, count)];
      run', steps' := After(run', steps', ApplyTx(n, 0, SET_K), c');
    }
  }

  lemma ReachCommitted(run: seq<Cluster>, steps: seq<Step>, n: NodeKey, count: nat)
    returns (run': seq<Cluster>, steps': seq<Step>)
    requires IsRun(run, steps) && n in run[|steps|].nodes && run[|steps|].nodes[n] == EMPTY_NODE && n != DEFAULT_LEASEHOLDER
    requires count > 0
    ensures IsRun(run', steps')
    ensures run'[|steps'|] == run[|steps|].(nodes := run[|steps|].nodes[n := Setting(n, count)],
                                           net := run[|steps|].net + {Lease(Request(n, Sets(n, count)))})
  {
    run', steps' := ReachSetting(run, steps, n, count);
    var c := run'[|steps'|];
    CommitsTx(c, n, count);
    run', steps' := After(run', steps', CommitTx(n, 0, map[n := Sets(n, count)]), c.(net := c.net + {Lease(Request(n, Sets(n, count)))}));
  }

  /** Node 1 has set "k" twice and node 2 once, neither knowing of the other's lease. */
  const BOTH_COMMITTED :=
    Cluster(map[1 := Setting(1, 2), 2 := Setting(2, 1)], {Lease(Request(1, Sets(1, 2))), Lease(Request(2, Sets(2, 1)))}, [])

  lemma ReachBothCommitted() returns (run: seq<Cluster>, steps: seq<Step>)
    ensures IsRun(run, steps) && run[|steps|] == BOTH_COMMITTED
  {
    var c := Cluster(map[1 := EMPTY_NODE, 2 := EMPTY_NODE], {}, []);
    run, steps := ReachCommitted([c], [], 1, 2);
    run, steps := ReachCommitted(run, steps, 2, 1);
  }

  /** Node 1 has assigned versions 1 and 2 to its operations. */
  const ONE_ASSIGNED :=
    BOTH_COMMITTED.(nodes := BOTH_COMMITTED.nodes[1 := Assigned(Setting(1, 2), Sets(1, 2))], log := [SetK(1, 1), SetK(1, 2)])

  lemma AssignsTwo()
    ensures Next(BOTH_COMMITTED, Assign(1, Request(1, Sets(1, 2))), ONE_ASSIGNED)
    ensures ONE_ASSIGNED.nodes[1].store == map["k" := SetK(1, 2)]
  {
    var block := AssignVersions(0, Sets(1, 2));
    assert block == [SetK(1, 1), SetK(1, 2)];
    assert block[1..] == [SetK(1, 2)] && block[1..][1..] == [];
    assert StoreAll(map["k" := SetK(1, 1)], block[1..]) == map["k" := SetK(1, 2)];
  }

  /** It sends the second of them to node 2. */
  const SENT := ONE_ASSIGNED.(net := ONE_ASSIGNED.net + {Gossip(2, 1, [SetK(1, 2)])})

  lemma SendsOne()
    ensures Next(ONE_ASSIGNED, SendGossip(1, 2, [SetK(1, 2)]), SENT)
  {
    AssignsTwo();
    assert BatchOf(ONE_ASSIGNED.nodes[1].store, [SetK(1, 2)]);
  }

  /** Node 2 has learnt of it. */
  const LEARNT :=
    SENT.(nodes := SENT.nodes[2 := Gossiped(Setting(2, 1), [SetK(1, 2)])],
          net := SENT.net + {Feedback(1, ToDigests(Rejected(EMPTY_ENGINE, [SetK(1, 2)])))})

  lemma LearnsOne()
    ensures Next(SENT, ReceiveGossip(2, 1, [SetK(1, 2)]), LEARNT)
    ensures Holds(LEARNT.nodes[2].engine, "k", SetK(1, 2))
  {
    var op := SetK(1, 2);
    assert SENT.nodes[2] == Setting(2, 1);
    assert Accepted(EMPTY_ENGINE, [op]) == [op] && LastFor([op], "k", 0);
    CommitLast(EMPTY_ENGINE, [op], "k", 0);
  }

  /** Node 2 has assigned a version to its own operation. */
  const BOTH_ASSIGNED :=
    LEARNT.(nodes := LEARNT.nodes[2 := Assigned(LEARNT.nodes[2], Sets(2, 1))], log := LEARNT.log + AssignVersions(0, Sets(2, 1)))

  lemma AssignsOne()
    ensures Next(LEARNT, Assign(2, Request(2, Sets(2, 1))), BOTH_ASSIGNED)
    ensures Holds(BOTH_ASSIGNED.nodes[2].engine, "k", SetK(2, 1))
  {
    var block := AssignVersions(0, Sets(2, 1));
    assert LEARNT.nodes[2].counter == 0;
    assert LastFor(block, "k", 0) && block[0] == SetK(2, 1);
    CommitLast(LEARNT.nodes[2].engine, block, "k", 0);
  }

  lemma ReachLearnt() returns (run: seq<Cluster>, steps: seq<Step>)
    ensures IsRun(run, steps) && run[|steps|] == LEARNT
  {
    run, steps := ReachBothCommitted();
    AssignsTwo();
    run, steps := After(run, steps, Assign(1, Request(1, Sets(1, 2))), ONE_ASSIGNED);
    SendsOne();
    run, steps := After(run, steps, SendGossip(1, 2, [SetK(1, 2)]), SENT);
    LearnsOne();
    run, steps := After(run, steps, ReceiveGossip(2, 1, [SetK(1, 2)]), LEARNT);
  }

  /** A reachable step in which the assigner takes the version a node knows for a key from 2 back to 1. */
  lemma VersionGoesBack() returns (run: seq<Cluster>, steps: seq<Step>)
    ensures IsRun(run, steps) && |steps| > 0 && steps[|steps| - 1] == Assign(2, Request(2, Sets(2, 1)))
    ensures run[|steps| - 1] == LEARNT && Holds(LEARNT.nodes[2].engine, "k", SetK(1, 2))
    ensures run[|steps|] == BOTH_ASSIGNED && Holds(BOTH_ASSIGNED.nodes[2].engine, "k", SetK(2, 1))
  {
    run, steps := ReachLearnt();
    LearnsOne();
    AssignsOne();
    run, steps := After(run, steps, Assign(2, Request(2, Sets(2, 1))), BOTH_ASSIGNED);
  }

  // ----- A transaction whose requests must not be replayed in any order -----

  const DELETE_K := Operation("k", "", Delete, 0, DEFAULT_LEASEHOLDER, Infected)

  /** A cluster with transaction 1 at node 2. */
  function WithTx(c: Cluster, tx: Tx): Cluster
    requires 2 in c.nodes
  {
    c.(nodes := c.nodes[2 := c.nodes[2].(txs := c.nodes[2].txs[1 := tx])])
  }

  lemma BeginsAnother(c: Cluster)
    requires 2 in c.nodes
    ensures Next(c, BeginTx(2, 1), WithTx(c, Begin(c.nodes[2].engine.data)))
  {
  }

  /** An operation on "k" takes the lease node 2 knows for it. */
  lemma AppliesUnder(c: Cluster, tx: Tx, op: Operation, lh: NodeKey)
    requires 2 in c.nodes && op.key == "k" && op.leaseholder == DEFAULT_LEASEHOLDER && op.state == Infected
    requires "k" in c.nodes[2].engine.digests && c.nodes[2].engine.digests["k"].leaseholder == lh
    ensures Next(WithTx(c, tx), ApplyTx(2, 1, op), WithTx(c, Record(tx, op.(leaseholder := lh))))
  {
    var tx' := Record(tx, op.(leaseholder := lh));
    assert c.nodes[2].txs[1 := tx][1 := tx'] == c.nodes[2].txs[1 := tx'];
    assert WithTx(WithTx(c, tx), tx') == WithTx(c, tx');
  }

  /** Assigning versions leaves transactions alone. */
  lemma AssignsBeside(c: Cluster, req: Request, c': Cluster, tx: Tx)
    requires Next(c, Assign(2, req), c')
    ensures Next(WithTx(c, tx), Assign(2, req), WithTx(c', tx))
  {
    assert WithTx(c', tx).nodes == WithTx(c, tx).nodes[2 := Assigned(WithTx(c, tx).nodes[2], req.ops)];
  }

  /** A transaction that deletes "k" under the lease of node 1 and sets it again under that of node 2. */
  function Mixed(data: map<Key, Value>): Tx {
    Record(Record(Begin(data), DELETE_K.(leaseholder := 1)), SET_K.(leaseholder := 2))
  }

  lemma MixedLoses(data: map<Key, Value>) returns (reqs: Requests, order: seq<NodeKey>)
    ensures SplitInto(Mixed(data), reqs) && IsOrder(reqs, order) && "k" in Mixed(data).cache
    ensures forall base :: "k" !in Replay(base, reqs, order)
  {
    var tx, deleted, set_ := Mixed(data), Digest("k", Delete, 0, 1), Digest("k", Set, 0, 2);
    assert tx.digests == [deleted, set_] && tx.digests[..1] == [deleted] && [deleted][..0] == [];
    assert tx.digests[0].leaseholder == 1 && tx.digests[1].leaseholder == 2;
    assert Leaseholders(tx.digests) == {1, 2};
    assert LastUnder([deleted], 1, "k") == LastIs(Delete) && LastUnder(tx.digests, 1, "k") == LastUnder([deleted], 1, "k");
    reqs := map[1 := Group(tx.cache, tx.digests, 1), 2 := Group(tx.cache, tx.digests, 2)];
    order := [2, 1];
    forall base
      ensures "k" !in Replay(base, reqs, order)
    {
      assert order[..1] == [2];
      GroupReplay(Replay(base, reqs, [2]), tx.cache, tx.digests, 1, "k");
    }
  }

  /** A reachable transaction with requests that, replayed in some order, lose the value it set. */
  lemma MixedTransaction()
    returns (run: seq<Cluster>, steps: seq<Step>, data: map<Key, Value>, reqs: Requests, order: seq<NodeKey>)
    ensures IsRun(run, steps) && 2 in run[|steps|].nodes && 1 in run[|steps|].nodes[2].txs
    ensures run[|steps|].nodes[2].txs[1] == Mixed(data)
    ensures SplitInto(Mixed(data), reqs) && IsOrder(reqs, order)
    ensures "k" in Mixed(data).cache && forall base :: "k" !in Replay(base, reqs, order)
  {
    run, steps := ReachLearnt();
    LearnsOne();
    AssignsOne();
    data := LEARNT.nodes[2].engine.data;
    run, steps := Mixes(run, steps, LEARNT, BOTH_ASSIGNED, Request(2, Sets(2, 1)));
    reqs, order := MixedLoses(data);
  }

  /** The transaction is built around a step in which the lease that node 2 knows for "k" goes from node 1 to itself. */
  lemma Mixes(run: seq<Cluster>, steps: seq<Step>, c: Cluster, c': Cluster, req: Request)
    returns (run': seq<Cluster>, steps': seq<Step>)
    requires IsRun(run, steps) && run[|steps|] == c && Next(c, Assign(2, req), c')
    requires "k" in c.nodes[2].engine.digests && c.nodes[2].engine.digests["k"].leaseholder == 1
    requires "k" in c'.nodes[2].engine.digests && c'.nodes[2].engine.digests["k"].leaseholder == 2
    ensures IsRun(run', steps') && run'[|steps'|] == WithTx(c', Mixed(c.nodes[2].engine.data))
  {
    var tx := Begin(c.nodes[2].engine.data);
    BeginsAnother(c);
    run', steps' := After(run, steps, BeginTx(2, 1), WithTx(c, tx));
    AppliesUnder(c, tx, DELETE_K, 1);
    tx := Record(tx, DELETE_K.(leaseholder := 1));
    run', steps' := After(run', steps', ApplyTx(2, 1, DELETE_K), WithTx(c, tx));
    AssignsBeside(c, req, c', tx);
    run', steps' := After(run', steps', Assign(2, req), WithTx(c', tx));
    AppliesUnder(c', tx, SET_K, 2);
    run', steps' := After(run', steps', ApplyTx(2, 1, SET_K), WithTx(c', Record(tx, SET_K.(leaseholder := 2))));
  }
}
