/**
 Leases and transactions (aspen/internal/kv/lease.go:32-63, tx.go:32-138).

 A transaction caches its writes and remembers a digest for each; committing it turns the digests
 into one request per leaseholder, reading the values back from the cache.
 */
module KvTx {
  import opened Common
  import opened KvOperation

  // ----- Leases -----

  datatype Lease = Refused | NotFound | Leased(op: Operation)

  /** `allocate`: an existing key keeps its lease, a new key takes the requested lease or the host's. */
  function Allocate(digests: map<Key, Digest>, host: NodeKey, op: Operation): (r: Lease)
    ensures r.Leased? ==> r.op == op.(leaseholder := r.op.leaseholder)
    ensures op.key in digests ==> (r.Leased? ==> r.op.leaseholder == digests[op.key].leaseholder)
    ensures op.key in digests ==>
              (r.Refused? <==> op.leaseholder != DEFAULT_LEASEHOLDER && op.leaseholder != digests[op.key].leaseholder)
    ensures r.NotFound? <==> op.key !in digests && op.variant.Delete?
    ensures op.key !in digests && op.variant.Set? ==>
              r.Leased? && r.op.leaseholder == if op.leaseholder == DEFAULT_LEASEHOLDER then host else op.leaseholder
  {
    if op.key in digests then
      var lh := digests[op.key].leaseholder;
      if op.leaseholder == DEFAULT_LEASEHOLDER then Leased(op.(leaseholder := lh))
      else if lh != op.leaseholder then Refused
      else Leased(op)
    else if op.variant.Set? then
      Leased(if op.leaseholder == DEFAULT_LEASEHOLDER then op.(leaseholder := host) else op)
    else
      NotFound
  }

  // ----- Building a transaction -----

  /** The cache the transaction reads from, and the digests of its operations. */
  datatype Tx = Tx(cache: map<Key, Value>, digests: seq<Digest>)

  function Begin(data: map<Key, Value>): Tx {
    Tx(data, [])
  }

  /** `applyOp` for an operation whose lease has been allocated. */
  function Record(tx: Tx, op: Operation): Tx {
    Tx(if op.variant == Delete then tx.cache - {op.key} else tx.cache[op.key := op.value],
       tx.digests + [op.ToDigest()])
  }

  function RecordAll(tx: Tx, ops: seq<Operation>): Tx {
    if ops == [] then tx else Record(RecordAll(tx, ops[..|ops| - 1]), ops[|ops| - 1])
  }

  /** The digests a transaction remembers are those of its operations. */
  lemma {:induction false} RecordsDigests(base: map<Key, Value>, ops: seq<Operation>)
    ensures var digests := RecordAll(Begin(base), ops).digests;
            |digests| == |ops| && forall i | 0 <= i < |ops| :: digests[i] == ops[i].ToDigest()
  {
    if ops != [] {
      RecordsDigests(base, ops[..|ops| - 1]);
    }
  }

  lemma {:induction false} RecordsSilent(base: map<Key, Value>, ops: seq<Operation>, k: Key)
    requires Silent(ops, k)
    ensures SameValue(RecordAll(Begin(base), ops).cache, base, k)
  {
    if ops != [] {
      RecordsSilent(base, ops[..|ops| - 1], k);
    }
  }

  lemma {:induction false} RecordsLast(base: map<Key, Value>, ops: seq<Operation>, k: Key, j: nat)
    requires LastFor(ops, k, j)
    ensures Says(RecordAll(Begin(base), ops).cache, k, ops[j])
  {
    if j < |ops| - 1 {
      RecordsLast(base, ops[..|ops| - 1], k, j);
    }
  }

  /**
   What a transaction reads: for every key the value its last operation sets, none when that deletes the key, and what was
   there before when it has none.
   */
  lemma RecordsLastWord(base: map<Key, Value>, ops: seq<Operation>, k: Key)
    ensures LastWord(base, ops, k, RecordAll(Begin(base), ops).cache)
  {
    if Silent(ops, k) {
      RecordsSilent(base, ops, k);
    }
    forall j: nat | LastFor(ops, k, j)
      ensures Says(RecordAll(Begin(base), ops).cache, k, ops[j])
    {
      RecordsLast(base, ops, k, j);
    }
  }

  predicate Touches(digests: seq<Digest>, k: Key) {
    exists i | 0 <= i < |digests| :: digests[i].key == k
  }

  /** The variant of the last digest for `k`. */
  function LastVariant(digests: seq<Digest>, k: Key): Variant
    requires Touches(digests, k)
  {
    if digests[|digests| - 1].key == k then digests[|digests| - 1].variant else LastVariant(digests[..|digests| - 1], k)
  }

  /** A touched key is in the cache exactly when its last digest is a Set. */
  ghost predicate CacheReflects(tx: Tx) {
    forall k | Touches(tx.digests, k) :: k in tx.cache <==> LastVariant(tx.digests, k) == Set
  }

  lemma TouchesSnoc(ds: seq<Digest>, d: Digest, k: Key)
    ensures Touches(ds + [d], k) <==> Touches(ds, k) || d.key == k
  {
    var all := ds + [d];
    assert forall i | 0 <= i < |ds| :: all[i] == ds[i];
    assert all[|ds|] == d;
  }

  lemma {:induction false} RecordsReflect(data: map<Key, Value>, ops: seq<Operation>)
    ensures CacheReflects(RecordAll(Begin(data), ops))
  {
    if ops != [] {
      var tx, op := RecordAll(Begin(data), ops[..|ops| - 1]), ops[|ops| - 1];
      RecordsReflect(data, ops[..|ops| - 1]);
      var tx' := Record(tx, op);
      forall k | Touches(tx'.digests, k)
        ensures k in tx'.cache <==> LastVariant(tx'.digests, k) == Set
      {
        TouchesSnoc(tx.digests, op.ToDigest(), k);
        assert tx'.digests[..|tx'.digests| - 1] == tx.digests;
      }
    }
  }

  // ----- Splitting by leaseholder -----

  /** The operation of one digest, with the value the cache holds at commit time. */
  function Fill(cache: map<Key, Value>, d: Digest): Operation
    requires d.variant == Set ==> d.key in cache
  {
    if d.variant == Set then d.ToOperation().(value := cache[d.key]) else d.ToOperation()
  }

  predicate Fillable(tx: Tx) {
    forall i | 0 <= i < |tx.digests| :: tx.digests[i].variant == Set ==> tx.digests[i].key in tx.cache
  }

  /** The operations of leaseholder `lh`, in order. */
  function Group(cache: map<Key, Value>, digests: seq<Digest>, lh: NodeKey): seq<Operation>
    requires forall i | 0 <= i < |digests| :: digests[i].variant == Set ==> digests[i].key in cache
  {
    if digests == [] then []
    else
      var front, last := digests[..|digests| - 1], digests[|digests| - 1];
      Group(cache, front, lh) + (if last.leaseholder == lh then [Fill(cache, last)] else [])
  }

  function Leaseholders(digests: seq<Digest>): set<NodeKey> {
    set i | 0 <= i < |digests| :: digests[i].leaseholder
  }

  type Requests = map<NodeKey, seq<Operation>>

  datatype Split = ValueMissing | Requests(reqs: Requests)

  /** The requests built from the digests so far. */
  predicate Grouped(cache: map<Key, Value>, digests: seq<Digest>, dm: Requests)
    requires forall i | 0 <= i < |digests| :: digests[i].variant == Set ==> digests[i].key in cache
  {
    dm.Keys == Leaseholders(digests) && forall lh | lh in dm :: dm[lh] == Group(cache, digests, lh)
  }

  lemma {:induction false} GroupEmpty(cache: map<Key, Value>, digests: seq<Digest>, lh: NodeKey)
    requires forall i | 0 <= i < |digests| :: digests[i].variant == Set ==> digests[i].key in cache
    requires lh !in Leaseholders(digests)
    ensures Group(cache, digests, lh) == []
  {
    if digests != [] {
      var front, last := digests[..|digests| - 1], digests[|digests| - 1];
      assert digests == front + [last];
      LeaseholdersSnoc(front, last);
      GroupEmpty(cache, front, lh);
    }
  }

  lemma GroupedStep(cache: map<Key, Value>, digests: seq<Digest>, i: nat, dm: Requests, after: Requests)
    requires i < |digests|
    requires forall j | 0 <= j <= i :: digests[j].variant == Set ==> digests[j].key in cache
    requires Grouped(cache, digests[..i], dm)
    requires var op := Fill(cache, digests[i]);
             after == dm[op.leaseholder := (if op.leaseholder in dm then dm[op.leaseholder] else []) + [op]]
    ensures Grouped(cache, digests[..i + 1], after)
  {
    var done, more, d := digests[..i], digests[..i + 1], digests[i];
    assert more == done + [d] && more[..|more| - 1] == done;
    LeaseholdersSnoc(done, d);
    if d.leaseholder !in dm {
      GroupEmpty(cache, done, d.leaseholder);
    }
  }

  /**
   `toRequests`: fails when a key that was set has no value in the cache any more, and otherwise partitions the digests
   by leaseholder, in order.
   */
  method ToRequests(tx: Tx) returns (r: Split)
    ensures r.ValueMissing? <==> !Fillable(tx)
    ensures r.Requests? ==> Grouped(tx.cache, tx.digests, r.reqs)
  {
    var dm: Requests := map[];
    for i := 0 to |tx.digests|
      invariant forall j | 0 <= j < i :: tx.digests[j].variant == Set ==> tx.digests[j].key in tx.cache
      invariant Grouped(tx.cache, tx.digests[..i], dm)
    {
      var dig := tx.digests[i];
      var op := dig.ToOperation();
      if op.variant == Set {
        if dig.key !in tx.cache {
          return ValueMissing;
        }
        op := op.(value := tx.cache[dig.key]);
      }
      ghost var before := dm;
      dm := dm[op.leaseholder := (if op.leaseholder in dm then dm[op.leaseholder] else []) + [op]];
      GroupedStep(tx.cache, tx.digests, i, before, dm);
    }
    assert tx.digests[..|tx.digests|] == tx.digests;
    return Requests(dm);
  }

  lemma LeaseholdersSnoc(ds: seq<Digest>, d: Digest)
    ensures Leaseholders(ds + [d]) == Leaseholders(ds) + {d.leaseholder}
  {
    var all := ds + [d];
    assert forall i | 0 <= i < |ds| :: all[i] == ds[i];
    assert all[|ds|] == d;
  }

  // ----- Replaying requests -----

  function DataAfter(data: map<Key, Value>, ops: seq<Operation>): map<Key, Value> {
    if ops == [] then data
    else
      var m, op := DataAfter(data, ops[..|ops| - 1]), ops[|ops| - 1];
      if op.variant == Delete then m - {op.key} else m[op.key := op.value]
  }

  /** It is what committing the operations makes of an engine's data. */
  lemma {:induction false} DataAfterIsCommitted(e: Engine, ops: seq<Operation>)
    ensures DataAfter(e.data, ops) == Commit(e, ops).data
  {
    if ops != [] {
      var front, op := ops[..|ops| - 1], ops[|ops| - 1];
      DataAfterIsCommitted(e, front);
      assert ops == front + [op];
      CommitConcat(e, front, [op]);
    }
  }

  /** Requests replayed one after the other. */
  function Replay(data: map<Key, Value>, reqs: Requests, order: seq<NodeKey>): map<Key, Value>
    requires forall i | 0 <= i < |order| :: order[i] in reqs
  {
    if order == [] then data
    else DataAfter(Replay(data, reqs, order[..|order| - 1]), reqs[order[|order| - 1]])
  }

  /** Every request, once each. */
  predicate IsOrder(reqs: Requests, order: seq<NodeKey>) {
    && (forall i | 0 <= i < |order| :: order[i] in reqs)
    && (forall lh | lh in reqs :: lh in order)
    && (forall i, j | 0 <= i < j < |order| :: order[i] != order[j])
  }

  /** The variant of the last digest for `k` under leaseholder `lh`. */
  datatype Last = Untouched | LastIs(variant: Variant)

  function LastUnder(digests: seq<Digest>, lh: NodeKey, k: Key): Last {
    if digests == [] then Untouched
    else
      var d := digests[|digests| - 1];
      if d.key == k && d.leaseholder == lh then LastIs(d.variant) else LastUnder(digests[..|digests| - 1], lh, k)
  }

  /** What one request does to a key: nothing, or what its last digest for that key says, with the cached value. */
  lemma {:induction false} GroupReplay(data: map<Key, Value>, cache: map<Key, Value>, digests: seq<Digest>, lh: NodeKey, k: Key)
    requires forall i | 0 <= i < |digests| :: digests[i].variant == Set ==> digests[i].key in cache
    ensures var after := DataAfter(data, Group(cache, digests, lh));
            match LastUnder(digests, lh, k)
            case Untouched => SameValue(after, data, k)
            case LastIs(Set) => k in after && k in cache && after[k] == cache[k]
            case LastIs(Delete) => k !in after
  {
    if digests != [] {
      var front, last := digests[..|digests| - 1], digests[|digests| - 1];
      GroupReplay(data, cache, front, lh, k);
      if last.leaseholder == lh {
        var ops := Group(cache, digests, lh);
        assert ops[..|ops| - 1] == Group(cache, front, lh);
      } else {
        assert Group(cache, digests, lh) == Group(cache, front, lh);
      }
    }
  }

  /** The requests a transaction is split into. */
  predicate SplitInto(tx: Tx, reqs: Requests) {
    Fillable(tx) && Grouped(tx.cache, tx.digests, reqs)
  }

  /** The last word of leaseholder `lh` on key `k`, if any, is what the cache says. */
  predicate FinalWord(tx: Tx, lh: NodeKey, k: Key) {
    LastUnder(tx.digests, lh, k).Untouched? || (LastUnder(tx.digests, lh, k) == LastIs(Set) <==> k in tx.cache)
  }

  /** Some leaseholder of the order touches the key. */
  predicate TouchedBy(digests: seq<Digest>, order: seq<NodeKey>, k: Key) {
    exists i | 0 <= i < |order| :: LastUnder(digests, order[i], k).LastIs?
  }

  lemma TouchedBySnoc(digests: seq<Digest>, order: seq<NodeKey>, k: Key)
    requires order != []
    ensures TouchedBy(digests, order, k) <==>
            TouchedBy(digests, order[..|order| - 1], k) || LastUnder(digests, order[|order| - 1], k).LastIs?
  {
  }

  /** Replaying the request of a leaseholder with the final word gives the cached value, or leaves the key alone. */
  lemma ReplayOne(data: map<Key, Value>, tx: Tx, reqs: Requests, lh: NodeKey, k: Key)
    requires SplitInto(tx, reqs) && lh in reqs && FinalWord(tx, lh, k)
    ensures SameValue(DataAfter(data, reqs[lh]), if LastUnder(tx.digests, lh, k).LastIs? then tx.cache else data, k)
  {
    GroupReplay(data, tx.cache, tx.digests, lh, k);
  }

  lemma {:induction false} ReplayKey(data: map<Key, Value>, tx: Tx, reqs: Requests, order: seq<NodeKey>, k: Key)
    requires SplitInto(tx, reqs) && forall i | 0 <= i < |order| :: order[i] in reqs
    requires forall i | 0 <= i < |order| :: FinalWord(tx, order[i], k)
    ensures SameValue(Replay(data, reqs, order), if TouchedBy(tx.digests, order, k) then tx.cache else data, k)
    decreases order
  {
    if order != [] {
      var front, lh := order[..|order| - 1], order[|order| - 1];
      ReplayKey(data, tx, reqs, front, k);
      ReplayOne(Replay(data, reqs, front), tx, reqs, lh, k);
      TouchedBySnoc(tx.digests, order, k);
    }
  }

  lemma {:induction false} TouchedUnderSome(digests: seq<Digest>, k: Key) returns (lh: NodeKey)
    requires Touches(digests, k)
    ensures lh in Leaseholders(digests) && LastUnder(digests, lh, k).LastIs?
  {
    var front, d := digests[..|digests| - 1], digests[|digests| - 1];
    if d.key == k {
      lh := d.leaseholder;
    } else {
      TouchesSnoc(front, d, k);
      assert digests == front + [d];
      lh := TouchedUnderSome(front, k);
      LeaseholdersSnoc(front, d);
    }
  }

  lemma {:induction false} UntouchedUnderAll(digests: seq<Digest>, lh: NodeKey, k: Key)
    requires !Touches(digests, k)
    ensures LastUnder(digests, lh, k).Untouched?
  {
    if digests != [] {
      TouchesSnoc(digests[..|digests| - 1], digests[|digests| - 1], k);
      assert digests == digests[..|digests| - 1] + [digests[|digests| - 1]];
      UntouchedUnderAll(digests[..|digests| - 1], lh, k);
    }
  }

  /** When every leaseholder has the final word, replaying in any order gives the cached values and leaves other keys alone. */
  lemma ReplayFaithful(data: map<Key, Value>, tx: Tx, reqs: Requests, order: seq<NodeKey>, k: Key)
    requires SplitInto(tx, reqs) && IsOrder(reqs, order)
    requires forall lh | lh in reqs :: FinalWord(tx, lh, k)
    ensures SameValue(Replay(data, reqs, order), if Touches(tx.digests, k) then tx.cache else data, k)
  {
    ReplayKey(data, tx, reqs, order, k);
    if Touches(tx.digests, k) {
      var lh := TouchedUnderSome(tx.digests, k);
      assert lh in order;
    } else {
      forall i | 0 <= i < |order|
        ensures LastUnder(tx.digests, order[i], k).Untouched?
      {
        UntouchedUnderAll(tx.digests, order[i], k);
      }
    }
  }

  /** A leaseholder without the final word can be replayed last, and then the transaction's value is lost. */
  lemma ReplayUnfaithful(data: map<Key, Value>, tx: Tx, reqs: Requests, lh: NodeKey, k: Key) returns (order: seq<NodeKey>)
    requires SplitInto(tx, reqs) && lh in reqs && !FinalWord(tx, lh, k)
    ensures IsOrder(reqs, order) && !SameValue(Replay(data, reqs, order), tx.cache, k)
  {
    var rest := Enumerate(reqs.Keys - {lh});
    order := rest + [lh];
    forall i | 0 <= i < |rest|
      ensures order[i] in reqs && order[i] != lh
    {
      assert rest[i] in rest;
    }
    forall l | l in reqs
      ensures l in order
    {
      if l != lh { assert l in rest; } else { assert order[|rest|] == lh; }
    }
    assert order[..|order| - 1] == rest;
    GroupReplay(Replay(data, reqs, rest), tx.cache, tx.digests, lh, k);
    LastSetIsCached(tx, lh, k);
  }

  lemma LastSetIsCached(tx: Tx, lh: NodeKey, k: Key)
    requires Fillable(tx)
    ensures LastUnder(tx.digests, lh, k) == LastIs(Set) ==> k in tx.cache
  {
    GroupReplay(map[], tx.cache, tx.digests, lh, k);
  }

  /**
   Splitting a transaction preserves its meaning in every replay order exactly when, for every touched key, the last
   digest under each leaseholder is a Set if and only if the key is still in the cache.
   */
  lemma SplitFaithfulIff(data: map<Key, Value>, tx: Tx, reqs: Requests)
    requires SplitInto(tx, reqs)
    ensures (forall order, k | IsOrder(reqs, order) && Touches(tx.digests, k) :: SameValue(Replay(data, reqs, order), tx.cache, k))
            <==> (forall lh, k | lh in reqs && Touches(tx.digests, k) :: FinalWord(tx, lh, k))
  {
    if forall lh, k | lh in reqs && Touches(tx.digests, k) :: FinalWord(tx, lh, k) {
      forall order, k | IsOrder(reqs, order) && Touches(tx.digests, k)
        ensures SameValue(Replay(data, reqs, order), tx.cache, k)
      {
        ReplayFaithful(data, tx, reqs, order, k);
      }
    } else {
      var lh, k :| lh in reqs && Touches(tx.digests, k) && !FinalWord(tx, lh, k);
      var order := ReplayUnfaithful(data, tx, reqs, lh, k);
      assert IsOrder(reqs, order) && Touches(tx.digests, k) && !SameValue(Replay(data, reqs, order), tx.cache, k);
    }
  }

  // ----- One leaseholder per key -----

  predicate OneLeaseholderPerKey(digests: seq<Digest>) {
    forall i, j | 0 <= i < |digests| && 0 <= j < |digests| && digests[i].key == digests[j].key ::
      digests[i].leaseholder == digests[j].leaseholder
  }

  lemma {:induction false} SharedLeaseholderHasFinalWord(digests: seq<Digest>, lh: NodeKey, k: Key)
    requires OneLeaseholderPerKey(digests) && LastUnder(digests, lh, k).LastIs?
    ensures Touches(digests, k) && LastUnder(digests, lh, k) == LastIs(LastVariant(digests, k))
    ensures forall i | 0 <= i < |digests| && digests[i].key == k :: digests[i].leaseholder == lh
  {
    var front, d := digests[..|digests| - 1], digests[|digests| - 1];
    if d.key == k && d.leaseholder == lh {
      assert digests[|digests| - 1].key == k;
    } else {
      SharedLeaseholderHasFinalWord(front, lh, k);
      var i :| 0 <= i < |front| && front[i].key == k;
      assert digests[i] == front[i];
    }
  }

  /**
   A transaction whose digests name one leaseholder per key, and that commits at all, means the same however its requests
   are replayed: every key gets what its last operation says, and keys without one keep their value.
   */
  lemma SplitPreservesMeaning(data: map<Key, Value>, base: map<Key, Value>, ops: seq<Operation>, reqs: Requests,
                              order: seq<NodeKey>, k: Key)
    requires var tx := RecordAll(Begin(base), ops); SplitInto(tx, reqs) && OneLeaseholderPerKey(tx.digests)
    requires IsOrder(reqs, order)
    ensures LastWord(data, ops, k, Replay(data, reqs, order))
  {
    var tx := RecordAll(Begin(base), ops);
    RecordsReflect(base, ops);
    RecordsLastWord(base, ops, k);
    RecordsDigests(base, ops);
    forall lh | lh in reqs
      ensures FinalWord(tx, lh, k)
    {
      if LastUnder(tx.digests, lh, k).LastIs? {
        SharedLeaseholderHasFinalWord(tx.digests, lh, k);
      }
    }
    ReplayFaithful(data, tx, reqs, order, k);
    if j: nat :| LastFor(ops, k, j) {
      assert tx.digests[j].key == k;
    }
  }

  /** A transaction commits exactly when no key it has set ends up deleted. */
  lemma CommitsIff(base: map<Key, Value>, ops: seq<Operation>)
    ensures var tx := RecordAll(Begin(base), ops);
            Fillable(tx) <==> forall i | 0 <= i < |tx.digests| && tx.digests[i].variant == Set ::
                                Touches(tx.digests, tx.digests[i].key) && LastVariant(tx.digests, tx.digests[i].key) == Set
  {
    var tx := RecordAll(Begin(base), ops);
    RecordsReflect(base, ops);
    forall i | 0 <= i < |tx.digests|
      ensures Touches(tx.digests, tx.digests[i].key)
    {
    }
  }
}
