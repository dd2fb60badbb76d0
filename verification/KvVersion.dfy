/**
 The version filter in front of a node's engine (aspen/internal/kv/version.go:37-93), and
 convergence of nodes that receive the same operations.
 */
module KvVersion {
  import opened KvOperation

  // ----- The order on versions -----

  /** Version first, then leaseholder. */
  predicate Beats(a: Digest, b: Digest) {
    a.version > b.version || (a.version == b.version && a.leaseholder > b.leaseholder)
  }

  /** `filter`: whether an operation is newer than what the engine knows about its key. */
  function Filter(e: Engine, op: Operation): (newer: bool)
    ensures newer <==> op.key in e.digests ==> Beats(op.ToDigest(), e.digests[op.key])
  {
    if op.key !in e.digests then
      true
    else if op.version == e.digests[op.key].version then
      op.leaseholder > e.digests[op.key].leaseholder
    else
      op.version > e.digests[op.key].version
  }

  // ----- Batches -----

  function Accepted(e: Engine, ops: seq<Operation>): seq<Operation> {
    if ops == [] then []
    else (if Filter(e, ops[0]) then [ops[0]] else []) + Accepted(e, ops[1..])
  }

  function Rejected(e: Engine, ops: seq<Operation>): seq<Operation> {
    if ops == [] then []
    else (if Filter(e, ops[0]) then [] else [ops[0]]) + Rejected(e, ops[1..])
  }

  lemma {:induction false} SplitSnoc(e: Engine, ops: seq<Operation>, op: Operation)
    ensures Accepted(e, ops + [op]) == Accepted(e, ops) + (if Filter(e, op) then [op] else [])
    ensures Rejected(e, ops + [op]) == Rejected(e, ops) + (if Filter(e, op) then [] else [op])
  {
    if ops == [] {
      assert ops + [op] == [op];
    } else {
      assert (ops + [op])[1..] == ops[1..] + [op];
      SplitSnoc(e, ops[1..], op);
    }
  }

  lemma {:induction false} SplitMembers(e: Engine, ops: seq<Operation>)
    ensures forall o :: o in Accepted(e, ops) ==> o in ops && Filter(e, o)
    ensures forall o :: o in Rejected(e, ops) ==> o in ops && !Filter(e, o)
    ensures forall o | o in ops :: o in if Filter(e, o) then Accepted(e, ops) else Rejected(e, ops)
  {
    if ops != [] {
      SplitMembers(e, ops[1..]);
      assert ops == [ops[0]] + ops[1..];
    }
  }

  lemma {:induction false} AcceptedDistinct(e: Engine, ops: seq<Operation>)
    requires DistinctKeys(ops)
    ensures DistinctKeys(Accepted(e, ops))
  {
    if ops != [] {
      AcceptedDistinct(e, ops[1..]);
      SplitMembers(e, ops[1..]);
      var rest := Accepted(e, ops[1..]);
      forall i | 0 <= i < |rest|
        ensures rest[i].key != ops[0].key
      {
        assert rest[i] in ops[1..];
      }
    }
  }

  /** The filter stage: splits a request in two, keeping order. */
  method Switch(e: Engine, ops: seq<Operation>) returns (accepted: seq<Operation>, rejected: seq<Operation>)
    ensures accepted == Accepted(e, ops) && rejected == Rejected(e, ops)
  {
    accepted, rejected := [], [];
    for i := 0 to |ops|
      invariant accepted == Accepted(e, ops[..i]) && rejected == Rejected(e, ops[..i])
    {
      SplitSnoc(e, ops[..i], ops[i]);
      assert ops[..i + 1] == ops[..i] + [ops[i]];
      if Filter(e, ops[i]) {
        accepted := accepted + [ops[i]];
      } else {
        rejected := rejected + [ops[i]];
      }
    }
    assert ops[..|ops|] == ops;
  }

  /** Filter-then-persist of one request. */
  function Deliver(e: Engine, batch: seq<Operation>): Engine {
    Commit(e, Accepted(e, batch))
  }

  /** The reference: operations one at a time, each against the engine its predecessors left. */
  function Sequential(e: Engine, ops: seq<Operation>): Engine
    decreases ops
  {
    if ops == [] then e
    else Sequential(if Filter(e, ops[0]) then ApplyOp(e, ops[0]) else e, ops[1..])
  }

  lemma {:induction false} SequentialConcat(e: Engine, a: seq<Operation>, b: seq<Operation>)
    ensures Sequential(e, a + b) == Sequential(Sequential(e, a), b)
    decreases a
  {
    if a == [] {
      assert a + b == b;
    } else {
      assert (a + b)[1..] == a[1..] + b;
      SequentialConcat(if Filter(e, a[0]) then ApplyOp(e, a[0]) else e, a[1..], b);
    }
  }

  /** Filtering depends only on the digests of the keys filtered. */
  lemma {:induction false} AcceptedFrame(e: Engine, op: Operation, ops: seq<Operation>)
    requires forall i | 0 <= i < |ops| :: ops[i].key != op.key
    ensures Accepted(ApplyOp(e, op), ops) == Accepted(e, ops)
  {
    if ops != [] {
      AcceptedFrame(e, op, ops[1..]);
    }
  }

  /** On a batch without repeated keys, filtering all and then committing equals filtering one at a time. */
  lemma {:induction false} BatchIsSequential(e: Engine, batch: seq<Operation>)
    requires DistinctKeys(batch)
    ensures Deliver(e, batch) == Sequential(e, batch)
    decreases batch
  {
    if batch != [] {
      var op, rest := batch[0], batch[1..];
      if Filter(e, op) {
        AcceptedFrame(e, op, rest);
        BatchIsSequential(ApplyOp(e, op), rest);
        assert Accepted(e, batch)[1..] == Accepted(e, rest);
      } else {
        BatchIsSequential(e, rest);
        assert Accepted(e, batch) == Accepted(e, rest);
      }
    }
  }

  // ----- Known operations -----

  /** What the engine knows of a key only gets newer, so that what the filter rejects once it rejects ever after. */
  lemma {:induction false} StaysKnown(e: Engine, ops: seq<Operation>, op: Operation)
    requires !Filter(e, op)
    ensures !Filter(Sequential(e, ops), op)
    decreases ops
  {
    if ops != [] {
      StaysKnown(if Filter(e, ops[0]) then ApplyOp(e, ops[0]) else e, ops[1..], op);
    }
  }

  /** Whatever has been through the filter is known. */
  lemma {:induction false} SequentialKnows(e: Engine, ops: seq<Operation>, op: Operation)
    requires op in ops
    ensures !Filter(Sequential(e, ops), op)
    decreases ops
  {
    var next := if Filter(e, ops[0]) then ApplyOp(e, ops[0]) else e;
    if op == ops[0] {
      StaysKnown(next, ops[1..], op);
    } else {
      SequentialKnows(next, ops[1..], op);
    }
  }

  lemma {:induction false} AllKnown(e: Engine, ops: seq<Operation>)
    requires forall i | 0 <= i < |ops| :: !Filter(e, ops[i])
    ensures Accepted(e, ops) == [] && Rejected(e, ops) == ops
  {
    if ops != [] {
      AllKnown(e, ops[1..]);
    }
  }

  /** Delivering a request a second time, after any others, accepts nothing of it and rejects all of it, in order. */
  lemma Redelivered(e: Engine, batch: seq<Operation>, others: seq<seq<Operation>>)
    requires DistinctKeys(batch) && forall i | 0 <= i < |others| :: DistinctKeys(others[i])
    ensures var later := DeliverAll(Deliver(e, batch), others);
            Accepted(later, batch) == [] && Rejected(later, batch) == batch && Deliver(later, batch) == later
  {
    var between := Deliver(e, batch);
    BatchIsSequential(e, batch);
    DeliverAllIsSequential(between, others);
    forall i | 0 <= i < |batch|
      ensures !Filter(Sequential(between, Flatten(others)), batch[i])
    {
      SequentialKnows(e, batch, batch[i]);
      StaysKnown(between, Flatten(others), batch[i]);
    }
    AllKnown(DeliverAll(between, others), batch);
  }

  /** Repeated keys break it: an older operation later in the batch overwrites a newer one. */
  lemma RepeatedKeysDiffer(k: Key, v: Value, w: Value, n: NodeKey)
    ensures var newer, older := Operation(k, v, Set, 2, n, Infected), Operation(k, w, Set, 1, n, Infected);
            && Holds(Deliver(EMPTY_ENGINE, [newer, older]), k, older)
            && Holds(Sequential(EMPTY_ENGINE, [newer, older]), k, newer)
  {
    var a, b := Operation(k, v, Set, 2, n, Infected), Operation(k, w, Set, 1, n, Infected);
    var batch := [a, b];
    assert batch[1..] == [b];
    assert Accepted(EMPTY_ENGINE, [b]) == [b] && Accepted(EMPTY_ENGINE, batch) == batch;
    var e := ApplyOp(EMPTY_ENGINE, a);
    assert Commit(e, [b]) == ApplyOp(e, b) && Commit(EMPTY_ENGINE, batch) == Commit(e, [b]);
    assert Sequential(e, [b]) == e && Sequential(EMPTY_ENGINE, batch) == Sequential(e, [b]);
  }

  // ----- Convergence -----

  /** `o` is a newest operation for key `k`. */
  predicate IsNewest(ops: seq<Operation>, k: Key, o: Operation) {
    && o in ops && o.key == k
    && forall p | p in ops && p.key == k :: !Beats(p.ToDigest(), o.ToDigest())
  }

  predicate Mentions(ops: seq<Operation>, k: Key) {
    exists o | o in ops :: o.key == k
  }

  /** The engine holds, for every key, a newest of the operations received for it, and nothing else. */
  ghost predicate HoldsNewest(e: Engine, ops: seq<Operation>) {
    forall k :: HoldsNewestAt(e, ops, k)
  }

  ghost predicate HoldsNewestAt(e: Engine, ops: seq<Operation>, k: Key) {
    if Mentions(ops, k) then exists o :: IsNewest(ops, k, o) && Holds(e, k, o)
    else k !in e.digests && k !in e.data
  }

  /** One more operation. */
  lemma NewestStep(e: Engine, ops: seq<Operation>, op: Operation, k: Key)
    requires HoldsNewestAt(e, ops, k)
    ensures HoldsNewestAt(if Filter(e, op) then ApplyOp(e, op) else e, ops + [op], k)
  {
    var e', all := if Filter(e, op) then ApplyOp(e, op) else e, ops + [op];
    assert op in all;
    if Mentions(ops, k) {
      var o :| IsNewest(ops, k, o) && Holds(e, k, o);
      assert o in all;
      var winner := if k == op.key && Filter(e, op) then op else o;
      assert IsNewest(all, k, winner) && Holds(e', k, winner);
    } else if k == op.key {
      assert IsNewest(all, k, op) && Holds(e', k, op);
    }
  }

  lemma {:induction false} SequentialHoldsNewest(ops: seq<Operation>)
    ensures HoldsNewest(Sequential(EMPTY_ENGINE, ops), ops)
  {
    if ops != [] {
      var front, last := ops[..|ops| - 1], ops[|ops| - 1];
      SequentialHoldsNewest(front);
      assert ops == front + [last];
      SequentialConcat(EMPTY_ENGINE, front, [last]);
      forall k
        ensures HoldsNewestAt(Sequential(EMPTY_ENGINE, ops), ops, k)
      {
        NewestStep(Sequential(EMPTY_ENGINE, front), front, last, k);
      }
    }
  }

  /** Engine after a sequence of batches. */
  function DeliverAll(e: Engine, batches: seq<seq<Operation>>): Engine
    decreases |batches|
  {
    if batches == [] then e else DeliverAll(Deliver(e, batches[0]), batches[1..])
  }

  function Flatten(batches: seq<seq<Operation>>): seq<Operation> {
    if batches == [] then [] else batches[0] + Flatten(batches[1..])
  }

  lemma {:induction false} DeliverAllIsSequential(e: Engine, batches: seq<seq<Operation>>)
    requires forall i | 0 <= i < |batches| :: DistinctKeys(batches[i])
    ensures DeliverAll(e, batches) == Sequential(e, Flatten(batches))
    decreases |batches|
  {
    if batches != [] {
      BatchIsSequential(e, batches[0]);
      SequentialConcat(e, batches[0], Flatten(batches[1..]));
      DeliverAllIsSequential(Deliver(e, batches[0]), batches[1..]);
    }
  }

  /** Operations with the same key, version and leaseholder are the same change. */
  predicate Coherent(ops: seq<Operation>) {
    forall o, p | o in ops && p in ops && o.key == p.key && o.version == p.version && o.leaseholder == p.leaseholder ::
      o.variant == p.variant && o.value == p.value
  }

  lemma SameMembersSameNewest(a: seq<Operation>, b: seq<Operation>, k: Key)
    requires forall o :: o in a <==> o in b
    ensures Mentions(a, k) <==> Mentions(b, k)
    ensures forall o :: IsNewest(a, k, o) <==> IsNewest(b, k, o)
  {
  }

  /** The engines agree on one key. */
  predicate SameAt(e: Engine, f: Engine, k: Key) {
    && (k in e.digests <==> k in f.digests) && (k in e.digests ==> e.digests[k] == f.digests[k])
    && (k in e.data <==> k in f.data) && (k in e.data ==> e.data[k] == f.data[k])
  }

  lemma SameEverywhere(e: Engine, f: Engine)
    requires forall k :: SameAt(e, f, k)
    ensures e == f
  {
    assert forall k :: k in e.digests ==> SameAt(e, f, k);
    assert forall k :: k in f.digests ==> SameAt(e, f, k);
    assert forall k :: k in e.data ==> SameAt(e, f, k);
    assert forall k :: k in f.data ==> SameAt(e, f, k);
    assert e.digests == f.digests && e.data == f.data;
  }

  lemma NewestDetermines(ops: seq<Operation>, e: Engine, f: Engine, k: Key)
    requires Coherent(ops) && HoldsNewestAt(e, ops, k) && HoldsNewestAt(f, ops, k)
    ensures SameAt(e, f, k)
  {
  }

  /** Sequences with the same operations lead to the same engine. */
  lemma SequentialConverges(a: seq<Operation>, b: seq<Operation>)
    requires (forall o :: o in a <==> o in b) && Coherent(a)
    ensures Sequential(EMPTY_ENGINE, a) == Sequential(EMPTY_ENGINE, b)
  {
    SequentialHoldsNewest(a);
    SequentialHoldsNewest(b);
    var e, f := Sequential(EMPTY_ENGINE, a), Sequential(EMPTY_ENGINE, b);
    forall k
      ensures SameAt(e, f, k)
    {
      assert HoldsNewestAt(e, a, k) && HoldsNewestAt(f, b, k);
      SameMembersSameNewest(a, b, k);
      NewestDetermines(a, e, f, k);
    }
    SameEverywhere(e, f);
  }

  /**
   Convergence: two nodes that receive the same operations, in any order, any number of times and in any batches without
   repeated keys, end with the same data and digests: for each key, those of a newest operation.
   */
  lemma Convergence(a: seq<seq<Operation>>, b: seq<seq<Operation>>)
    requires forall i | 0 <= i < |a| :: DistinctKeys(a[i])
    requires forall i | 0 <= i < |b| :: DistinctKeys(b[i])
    requires forall o :: o in Flatten(a) <==> o in Flatten(b)
    requires Coherent(Flatten(a))
    ensures DeliverAll(EMPTY_ENGINE, a) == DeliverAll(EMPTY_ENGINE, b)
    ensures HoldsNewest(DeliverAll(EMPTY_ENGINE, a), Flatten(a))
  {
    DeliverAllIsSequential(EMPTY_ENGINE, a);
    DeliverAllIsSequential(EMPTY_ENGINE, b);
    SequentialHoldsNewest(Flatten(a));
    SequentialConverges(Flatten(a), Flatten(b));
  }
}
