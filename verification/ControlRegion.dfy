/**
 One control region: gates competing for an entity by authority, then by position
 (cesium/internal/controller/controller.go:106-248, x/go/control/transfer.go).

 A gate is known by the identifier that stands for its address.  Gates are walked in map order,
 which is arbitrary, so an update is a relation and not a function.
 */
module ControlRegion {
  import opened Common

  type GateId = nat

  datatype Subject = Subject(key: string, name: string)

  datatype Gate = Gate(subject: Subject, authority: nat, position: int)

  datatype State = State(subject: Subject, resource: nat, authority: nat)

  /** A change of the state in control; an absent side means that nobody is in control on that side. */
  datatype Transfer = Transfer(from: Option<State>, to: Option<State>) {
    predicate Occurred() {
      if from.Some? && to.Some? then
        from.value.subject != to.value.subject || from.value.authority != to.value.authority
      else
        from.Some? || to.Some?
    }

    predicate IsRelease() {
      Occurred() && to.None?
    }
  }

  const NO_TRANSFER := Transfer(None, None)

  datatype Region = Region(resource: nat, gates: map<GateId, Gate>, curr: Option<GateId>, counter: int)

  function StateOf(r: Region, g: Gate): State {
    State(g.subject, r.resource, g.authority)
  }

  /** Higher authority, or the same authority and an earlier position. */
  predicate Outranks(a: Gate, b: Gate) {
    a.authority > b.authority || (a.authority == b.authority && a.position < b.position)
  }

  /** Positions and subjects tell the gates apart, and the gate in control is one of them. */
  predicate Valid(r: Region) {
    && (forall g | g in r.gates :: r.gates[g].position < r.counter)
    && (forall g, h | g in r.gates && h in r.gates && g != h ::
          r.gates[g].position != r.gates[h].position && r.gates[g].subject.key != r.gates[h].subject.key)
    && (if r.gates == map[] then r.curr.None? else r.curr.Some? && r.curr.value in r.gates)
  }

  /** Who is in control, as transfers report it. */
  function Holder(r: Region): Option<State> {
    if r.curr.Some? && r.curr.value in r.gates then Some(StateOf(r, r.gates[r.curr.value])) else None
  }

  /** No gate outranks the one in control. */
  predicate Best(r: Region)
    requires Valid(r)
  {
    r.curr.Some? ==> forall g | g in r.gates :: !Outranks(r.gates[g], r.gates[r.curr.value])
  }

  // ----- Opening -----

  predicate SubjectTaken(r: Region, key: string) {
    exists g | g in r.gates :: r.gates[g].subject.key == key
  }

  /** The region after opening gate `id`, whose subject is new to it. */
  function Opened(r: Region, id: GateId, subject: Subject, authority: nat): Region
    requires Valid(r)
  {
    var takes := r.curr.None? || authority > r.gates[r.curr.value].authority;
    r.(gates := r.gates[id := Gate(subject, authority, r.counter)],
       curr := if takes then Some(id) else r.curr,
       counter := r.counter + 1)
  }

  function OpenTransfer(r: Region, subject: Subject, authority: nat): Transfer
    requires Valid(r)
  {
    if r.curr.None? || authority > r.gates[r.curr.value].authority then
      Transfer(Holder(r), Some(State(subject, r.resource, authority)))
    else
      NO_TRANSFER
  }

  // ----- Updating -----

  function WithAuthority(r: Region, id: GateId, auth: nat): Region
    requires id in r.gates
  {
    r.(gates := r.gates[id := r.gates[id].(authority := auth)])
  }

  /** What changing the authority of gate `id` may lead to. */
  ghost predicate Updated(r: Region, id: GateId, auth: nat, r': Region, t: Transfer)
    requires Valid(r) && id in r.gates
  {
    var w := WithAuthority(r, id, auth);
    var g := w.gates[id];
    if r.curr == Some(id) then
      if exists h :: h in w.gates && Outranks(w.gates[h], g) then
        // Control goes to whichever outranking gate the walk meets first.
        exists h :: h in w.gates && Outranks(w.gates[h], g) && HandsOver(w, id, h, r', t)
      else
        r' == w && t == Transfer(Some(StateOf(r, r.gates[id])), Some(StateOf(w, g)))
    else if Outranks(g, w.gates[r.curr.value]) then
      r' == w.(curr := Some(id)) && t == Transfer(Some(StateOf(w, w.gates[r.curr.value])), Some(StateOf(w, g)))
    else
      r' == w && t == NO_TRANSFER
  }

  /** Gate `id`, already with its new authority, hands over to gate `h`. */
  predicate HandsOver(w: Region, id: GateId, h: GateId, r': Region, t: Transfer)
    requires id in w.gates && h in w.gates
  {
    r' == w.(curr := Some(h)) && t == Transfer(Some(StateOf(w, w.gates[id])), Some(StateOf(w, w.gates[h])))
  }

  // ----- Releasing -----

  function Without(r: Region, id: GateId): Region {
    r.(gates := r.gates - {id})
  }

  /** What releasing gate `id` leads to. */
  ghost predicate Released(r: Region, id: GateId, r': Region, t: Transfer)
    requires Valid(r) && id in r.gates
  {
    var w := Without(r, id);
    if w.gates == map[] then
      // The region is spent: it keeps naming a gate it no longer has, and is removed from its controller.
      r' == w && t == Transfer(Some(StateOf(r, r.gates[id])), None)
    else if |w.gates| == 1 then
      exists h :: h in w.gates && r' == w.(curr := Some(h)) && t == Transfer(Holder(r), Some(StateOf(w, w.gates[h])))
    else if r.curr == Some(id) then
      exists h :: h in w.gates && Top(w.gates, h) && HandsOver(r, id, h, r.(curr := Some(h)), t) && r' == w.(curr := Some(h))
    else
      r' == w && t == NO_TRANSFER
  }

  /** No gate outranks gate `h`. */
  predicate Top(gates: map<GateId, Gate>, h: GateId)
    requires h in gates
  {
    forall g | g in gates :: !Outranks(gates[g], gates[h])
  }

  // ----- What the operations keep -----

  lemma OpenKeeps(r: Region, id: GateId, subject: Subject, authority: nat)
    requires Valid(r) && id !in r.gates && !SubjectTaken(r, subject.key)
    ensures var r' := Opened(r, id, subject, authority); Valid(r') && (Best(r) ==> Best(r'))
  {
  }

  lemma UpdateKeepsValid(r: Region, id: GateId, auth: nat, r': Region, t: Transfer)
    requires Valid(r) && id in r.gates && Updated(r, id, auth, r', t)
    ensures Valid(r') && r'.gates.Keys == r.gates.Keys
  {
    WithAuthorityValid(r, id, auth);
    UpdateMovesControl(r, id, auth, r', t);
  }

  lemma WithAuthorityValid(r: Region, id: GateId, auth: nat)
    requires Valid(r) && id in r.gates
    ensures Valid(WithAuthority(r, id, auth)) && WithAuthority(r, id, auth).gates.Keys == r.gates.Keys
  {
  }

  /** Beyond the one authority, an update changes at most which gate is in control. */
  lemma UpdateMovesControl(r: Region, id: GateId, auth: nat, r': Region, t: Transfer)
    requires Valid(r) && id in r.gates && Updated(r, id, auth, r', t)
    ensures r' == WithAuthority(r, id, auth).(curr := r'.curr) && r'.curr.Some? && r'.curr.value in r'.gates
  {
  }

  /** A gate that is not in control, changing its authority, leaves the best gate in control. */
  lemma NonHolderUpdateKeepsBest(r: Region, id: GateId, auth: nat, r': Region, t: Transfer)
    requires Valid(r) && Best(r) && id in r.gates && r.curr != Some(id) && Updated(r, id, auth, r', t)
    ensures Valid(r') && Best(r')
  {
  }

  lemma ReleaseKeeps(r: Region, id: GateId, r': Region, t: Transfer)
    requires Valid(r) && id in r.gates && Released(r, id, r', t)
    ensures r'.gates != map[] ==> Valid(r') && (Best(r) ==> Best(r'))
    ensures t.IsRelease() <==> r'.gates == map[]
  {
    var w := Without(r, id);
    if |w.gates| == 1 {
      OnlyOne(w.gates);
    }
  }

  lemma OnlyOne(gates: map<GateId, Gate>)
    requires |gates| == 1
    ensures forall g, h | g in gates && h in gates :: g == h
  {
    forall g, h | g in gates && h in gates
      ensures g == h
    {
      assert |gates.Keys - {g}| == 0;
      assert h !in gates.Keys - {g};
    }
  }

  // ----- The holder's own update -----

  /** Gates that outrank gate `id` once its authority is `auth`. */
  function Outranking(r: Region, id: GateId, auth: nat): set<GateId>
    requires id in r.gates
  {
    set h | h in r.gates && h != id && Outranks(r.gates[h], r.gates[id].(authority := auth))
  }

  /** A holder that hands over does so to a gate that outranks it. */
  lemma HolderUpdateOutranked(r: Region, id: GateId, auth: nat, r': Region, t: Transfer)
    requires Valid(r) && r.curr == Some(id) && Updated(r, id, auth, r', t)
    ensures r'.curr.Some? && (r'.curr == Some(id) <==> Outranking(r, id, auth) == {})
    ensures r'.curr != Some(id) ==> r'.curr.value in Outranking(r, id, auth)
  {
    var w := WithAuthority(r, id, auth);
    assert forall h | h in w.gates && Outranks(w.gates[h], w.gates[id]) :: h in Outranking(r, id, auth);
    assert forall h | h in Outranking(r, id, auth) :: h in w.gates && Outranks(w.gates[h], w.gates[id]);
  }

  /** With at most one gate above its new authority, a holder's update leaves the best gate in control. */
  lemma HolderUpdateBest(r: Region, id: GateId, auth: nat, r': Region, t: Transfer)
    requires Valid(r) && r.curr == Some(id) && Updated(r, id, auth, r', t)
    requires |Outranking(r, id, auth)| <= 1
    ensures Valid(r') && Best(r')
  {
    UpdateKeepsValid(r, id, auth, r', t);
    HolderUpdateOutranked(r, id, auth, r', t);
    UpdateMovesControl(r, id, auth, r', t);
    var above, c := Outranking(r, id, auth), r'.curr.value;
    forall g | g in r'.gates
      ensures !Outranks(r'.gates[g], r'.gates[c])
    {
      if Outranks(r'.gates[g], r'.gates[c]) {
        assert g in above;
        TwoMembers(above, g, c);
      }
    }
  }

  lemma TwoMembers(s: set<GateId>, a: GateId, b: GateId)
    requires |s| <= 1 && a in s && b in s
    ensures a == b
  {
    assert |s - {a}| == 0;
    assert b !in s - {a};
  }

  /** With two gates above it, the walk may meet the lesser one first. */
  lemma HolderUpdateNotBest(r: Region, id: GateId, auth: nat) returns (r': Region, t: Transfer)
    requires Valid(r) && r.curr == Some(id) && |Outranking(r, id, auth)| > 1
    ensures Updated(r, id, auth, r', t) && Valid(r') && !Best(r')
  {
    var w := WithAuthority(r, id, auth);
    var above := Outranking(r, id, auth);
    var g :| g in above;
    assert |above - {g}| > 0;
    var h :| h in above - {g};
    var lesser, greater := if Outranks(w.gates[g], w.gates[h]) then h else g, if Outranks(w.gates[g], w.gates[h]) then g else h;
    assert Outranks(w.gates[greater], w.gates[lesser]);
    r' := w.(curr := Some(lesser));
    t := Transfer(Some(StateOf(w, w.gates[id])), Some(StateOf(w, w.gates[lesser])));
    assert HandsOver(w, id, lesser, r', t);
    UpdateKeepsValid(r, id, auth, r', t);
  }

  /**
   A holder's own update leaves the best gate in control, in whatever order the gates are walked, exactly when at most
   one gate outranks its new authority.
   */
  lemma HolderUpdateBestIff(r: Region, id: GateId, auth: nat)
    requires Valid(r) && r.curr == Some(id)
    ensures (forall r', t | Updated(r, id, auth, r', t) :: Valid(r') && Best(r')) <==> |Outranking(r, id, auth)| <= 1
  {
    if |Outranking(r, id, auth)| <= 1 {
      forall r', t | Updated(r, id, auth, r', t)
        ensures Valid(r') && Best(r')
      {
        HolderUpdateBest(r, id, auth, r', t);
      }
    } else {
      var r', t := HolderUpdateNotBest(r, id, auth);
    }
  }

  // ----- The ledger of transfers -----

  /** A listener's record of who is in control, after one more transfer. */
  function Fold(record: Option<State>, t: Transfer): Option<State> {
    if t.Occurred() then t.to else record
  }

  /** The transfer brings the record up to date, and one occurs exactly when the state in control changes. */
  predicate Accounts(r: Region, t: Transfer, r': Region) {
    Fold(Holder(r), t) == Holder(r') && (t.Occurred() <==> Holder(r) != Holder(r'))
  }

  lemma OpenAccounts(r: Region, id: GateId, subject: Subject, authority: nat)
    requires Valid(r) && id !in r.gates && !SubjectTaken(r, subject.key)
    ensures Accounts(r, OpenTransfer(r, subject, authority), Opened(r, id, subject, authority))
    ensures OpenTransfer(r, subject, authority).Occurred() ==> OpenTransfer(r, subject, authority).from == Holder(r)
  {
  }

  lemma UpdateAccounts(r: Region, id: GateId, auth: nat, r': Region, t: Transfer)
    requires Valid(r) && id in r.gates && Updated(r, id, auth, r', t)
    ensures Accounts(r, t, r')
  {
  }

  lemma ReleaseAccounts(r: Region, id: GateId, r': Region, t: Transfer)
    requires Valid(r) && id in r.gates && Released(r, id, r', t)
    ensures Accounts(r, t, r')
    ensures t.Occurred() ==> t.from == Holder(r)
  {
  }

  /**
   The source side of an update's transfer is the state that was in control, except that a holder handing over is
   reported with its new authority: it matches exactly when control stays or the authority is unchanged.
   */
  lemma UpdateSource(r: Region, id: GateId, auth: nat, r': Region, t: Transfer)
    requires Valid(r) && id in r.gates && Updated(r, id, auth, r', t) && t.Occurred()
    ensures t.from == Holder(r) <==> !(r.curr == Some(id) && r'.curr != Some(id) && auth != r.gates[id].authority)
  {
  }

  // ----- Whole lives of a region -----

  datatype Step = OpenGate(id: GateId, subject: Subject, authority: nat) | SetAuthority(id: GateId, authority: nat) | ReleaseGate(id: GateId)

  ghost predicate Next(r: Region, step: Step, t: Transfer, r': Region)
    requires Valid(r)
  {
    match step
    case OpenGate(id, subject, authority) =>
      if SubjectTaken(r, subject.key) then r' == r && t == NO_TRANSFER
      else id !in r.gates && r' == Opened(r, id, subject, authority) && t == OpenTransfer(r, subject, authority)
    case SetAuthority(id, authority) => id in r.gates && Updated(r, id, authority, r', t)
    case ReleaseGate(id) => id in r.gates && Released(r, id, r', t)
  }

  /** A region takes no step once it is spent. */
  ghost predicate IsLife(rs: seq<Region>, steps: seq<Step>, ts: seq<Transfer>) {
    && |rs| == |steps| + 1 && |ts| == |steps| && rs[0] == Region(rs[0].resource, map[], None, 0)
    && forall i | 0 <= i < |steps| :: Valid(rs[i]) && Next(rs[i], steps[i], ts[i], rs[i + 1])
  }

  function FoldAll(ts: seq<Transfer>): Option<State> {
    if ts == [] then None else Fold(FoldAll(ts[..|ts| - 1]), ts[|ts| - 1])
  }

  lemma StepAccounts(r: Region, step: Step, t: Transfer, r': Region)
    requires Valid(r) && Next(r, step, t, r')
    ensures Accounts(r, t, r') && (r'.gates != map[] || step.OpenGate? ==> Valid(r'))
  {
    match step
    case OpenGate(id, subject, authority) =>
      if !SubjectTaken(r, subject.key) {
        OpenAccounts(r, id, subject, authority);
        OpenKeeps(r, id, subject, authority);
      }
    case SetAuthority(id, authority) =>
      UpdateAccounts(r, id, authority, r', t);
      UpdateKeepsValid(r, id, authority, r', t);
    case ReleaseGate(id) =>
      ReleaseAccounts(r, id, r', t);
      ReleaseKeeps(r, id, r', t);
  }

  /** Folding the transfers returned over the life of a region always gives the state in control. */
  lemma {:induction false} LedgerTracksHolder(rs: seq<Region>, steps: seq<Step>, ts: seq<Transfer>, i: nat)
    requires IsLife(rs, steps, ts) && i < |rs|
    ensures FoldAll(ts[..i]) == Holder(rs[i])
  {
    if i > 0 {
      LedgerTracksHolder(rs, steps, ts, i - 1);
      StepAccounts(rs[i - 1], steps[i - 1], ts[i - 1], rs[i]);
      assert ts[..i][..i - 1] == ts[..i - 1];
    }
  }

  /** A holder's update that more than one gate outranks. */
  predicate Contested(r: Region, step: Step) {
    step.SetAuthority? && r.curr == Some(step.id) && step.id in r.gates && |Outranking(r, step.id, step.authority)| > 1
  }

  lemma StepKeepsBest(r: Region, step: Step, t: Transfer, r': Region)
    requires Valid(r) && Best(r) && Next(r, step, t, r') && !Contested(r, step) && r'.gates != map[]
    ensures Valid(r') && Best(r')
  {
    match step
    case OpenGate(id, subject, authority) =>
      if !SubjectTaken(r, subject.key) {
        OpenKeeps(r, id, subject, authority);
      }
    case SetAuthority(id, authority) =>
      if r.curr == Some(id) {
        HolderUpdateBest(r, id, authority, r', t);
      } else {
        NonHolderUpdateKeepsBest(r, id, authority, r', t);
      }
    case ReleaseGate(id) => ReleaseKeeps(r, id, r', t);
  }

  /** Until a holder's update is contested, the gate of highest authority and then earliest position is in control. */
  lemma {:induction false} BestUntilContested(rs: seq<Region>, steps: seq<Step>, ts: seq<Transfer>, i: nat)
    requires IsLife(rs, steps, ts) && i < |rs| && rs[i].gates != map[]
    requires forall j | 0 <= j < i :: !Contested(rs[j], steps[j])
    ensures Valid(rs[i]) && Best(rs[i])
  {
    if i > 0 {
      if rs[i - 1].gates != map[] {
        BestUntilContested(rs, steps, ts, i - 1);
      }
      StepKeepsBest(rs[i - 1], steps[i - 1], ts[i - 1], rs[i]);
    }
  }

  // ----- Authorization -----

  /** `Authorize`: under exclusive concurrency the gate in control only, otherwise every gate of at least its authority. */
  predicate Authorized(r: Region, id: GateId, exclusive: bool)
    requires Valid(r) && id in r.gates
  {
    if exclusive then r.curr == Some(id) else r.gates[id].authority >= r.gates[r.curr.value].authority
  }

  /** No gate has a higher authority. */
  predicate Highest(r: Region, id: GateId)
    requires id in r.gates
  {
    forall g | g in r.gates :: r.gates[g].authority <= r.gates[id].authority
  }

  /**
   Under shared concurrency exactly the gates of highest authority are authorized if and only if the gate in control is
   one of them, as the best gate is; otherwise a lesser gate is authorized as well: the one in control.
   */
  lemma SharedAuthorizedIff(r: Region)
    requires Valid(r) && r.gates != map[]
    ensures (forall g | g in r.gates :: Authorized(r, g, false) <==> Highest(r, g)) <==> Highest(r, r.curr.value)
    ensures (exists g | g in r.gates :: Authorized(r, g, false) && !Highest(r, g)) <==> !Highest(r, r.curr.value)
    ensures forall g | g in r.gates && Highest(r, g) :: Authorized(r, g, false)
    ensures Best(r) ==> Highest(r, r.curr.value)
  {
    var c := r.curr.value;
    assert Authorized(r, c, false);
    if Highest(r, c) {
      forall g | g in r.gates
        ensures Authorized(r, g, false) <==> Highest(r, g)
      {
      }
    }
  }

  /** So until a holder's update is contested. */
  lemma SharedUntilContested(rs: seq<Region>, steps: seq<Step>, ts: seq<Transfer>, i: nat, g: GateId)
    requires IsLife(rs, steps, ts) && i < |rs| && g in rs[i].gates && forall j | 0 <= j < i :: !Contested(rs[j], steps[j])
    ensures Valid(rs[i]) && (Authorized(rs[i], g, false) <==> Highest(rs[i], g))
  {
    BestUntilContested(rs, steps, ts, i);
    SharedAuthorizedIff(rs[i]);
  }

  // ----- The resource of a region -----

  /** Whatever states a transfer reports are of this resource. */
  predicate About(t: Transfer, resource: nat) {
    && (t.from.Some? ==> t.from.value.resource == resource)
    && (t.to.Some? ==> t.to.value.resource == resource)
  }

  lemma UpdateAbout(r: Region, id: GateId, auth: nat, r': Region, t: Transfer)
    requires Valid(r) && id in r.gates && Updated(r, id, auth, r', t)
    ensures r'.resource == r.resource && About(t, r.resource)
  {
    UpdateMovesControl(r, id, auth, r', t);
  }

  lemma ReleaseAbout(r: Region, id: GateId, r': Region, t: Transfer)
    requires Valid(r) && id in r.gates && Released(r, id, r', t)
    ensures r'.resource == r.resource && About(t, r.resource)
  {
  }

  lemma StepAbout(r: Region, step: Step, t: Transfer, r': Region)
    requires Valid(r) && Next(r, step, t, r')
    ensures r'.resource == r.resource && About(t, r.resource)
  {
    match step
    case OpenGate(id, subject, authority) =>
    case SetAuthority(id, authority) => UpdateAbout(r, id, authority, r', t);
    case ReleaseGate(id) => ReleaseAbout(r, id, r', t);
  }

  lemma {:induction false} ResourceKept(rs: seq<Region>, steps: seq<Step>, ts: seq<Transfer>, i: nat)
    requires IsLife(rs, steps, ts) && i < |rs|
    ensures rs[i].resource == rs[0].resource
  {
    if i > 0 {
      ResourceKept(rs, steps, ts, i - 1);
      StepAbout(rs[i - 1], steps[i - 1], ts[i - 1], rs[i]);
    }
  }

  /** Every transfer over the life of a region names the resource the region was made for. */
  lemma TransfersNameResource(rs: seq<Region>, steps: seq<Step>, ts: seq<Transfer>, i: nat)
    requires IsLife(rs, steps, ts) && i < |ts|
    ensures About(ts[i], rs[0].resource)
  {
    ResourceKept(rs, steps, ts, i);
    StepAbout(rs[i], steps[i], ts[i], rs[i + 1]);
  }

  // ----- A life in which the best gate loses control -----

  lemma LivesOn(rs: seq<Region>, steps: seq<Step>, ts: seq<Transfer>, step: Step, t: Transfer, r': Region)
    requires IsLife(rs, steps, ts) && Valid(rs[|steps|]) && Next(rs[|steps|], step, t, r')
    ensures IsLife(rs + [r'], steps + [step], ts + [t])
  {
    var rs' := rs + [r'];
    assert forall i | 0 <= i < |rs| :: rs'[i] == rs[i];
  }

  /** One more gate, with a subject new to the region, in a life that has kept the best gate in control. */
  lemma OpensOn(rs: seq<Region>, steps: seq<Step>, ts: seq<Transfer>, id: GateId, subject: Subject, authority: nat)
    returns (rs': seq<Region>, steps': seq<Step>, ts': seq<Transfer>)
    requires IsLife(rs, steps, ts) && Valid(rs[|steps|]) && Best(rs[|steps|])
    requires id !in rs[|steps|].gates && !SubjectTaken(rs[|steps|], subject.key)
    ensures IsLife(rs', steps', ts') && rs'[|steps'|] == Opened(rs[|steps|], id, subject, authority)
    ensures Valid(rs'[|steps'|]) && Best(rs'[|steps'|])
  {
    var r := rs[|steps|];
    OpenKeeps(r, id, subject, authority);
    var r', step, t := Opened(r, id, subject, authority), OpenGate(id, subject, authority), OpenTransfer(r, subject, authority);
    LivesOn(rs, steps, ts, step, t, r');
    rs', steps', ts' := rs + [r'], steps + [step], ts + [t];
  }

  lemma TwoOpen() returns (rs: seq<Region>, steps: seq<Step>, ts: seq<Transfer>)
    ensures IsLife(rs, steps, ts) && Valid(rs[|steps|]) && Best(rs[|steps|])
    ensures var r := rs[|steps|];
            && r.curr == Some(0) && r.gates.Keys == {0, 1} && r.gates[0].authority == 3 && r.gates[1].authority == 1
            && !SubjectTaken(r, "c")
  {
    rs, steps, ts := [Region(0, map[], None, 0)], [], [];
    rs, steps, ts := OpensOn(rs, steps, ts, 0, Subject("a", ""), 3);
    rs, steps, ts := OpensOn(rs, steps, ts, 1, Subject("b", ""), 1);
  }

  /** Three gates open, and the first, with the highest authority, is in control. */
  lemma ThreeOpen() returns (rs: seq<Region>, steps: seq<Step>, ts: seq<Transfer>)
    ensures IsLife(rs, steps, ts) && Valid(rs[|steps|]) && Best(rs[|steps|])
    ensures rs[|steps|].curr == Some(0) && rs[|steps|].gates.Keys == {0, 1, 2}
    ensures rs[|steps|].gates[1].authority == 1 && rs[|steps|].gates[2].authority == 2
  {
    rs, steps, ts := TwoOpen();
    rs, steps, ts := OpensOn(rs, steps, ts, 2, Subject("c", ""), 2);
  }

  /** Of two gates above the one that gives control away, the lesser has it, and is authorized. */
  lemma LesserAuthorized(r: Region, r': Region, t: Transfer)
    requires Valid(r) && r.curr == Some(0) && r.gates.Keys == {0, 1, 2} && r.gates[1].authority == 1 && r.gates[2].authority == 2
    requires Updated(r, 0, 0, r', t) && Valid(r') && !Best(r')
    ensures 1 in r'.gates && Authorized(r', 1, false) && !Highest(r', 1)
  {
    UpdateMovesControl(r, 0, 0, r', t);
    HolderUpdateOutranked(r, 0, 0, r', t);
    assert 1 in Outranking(r, 0, 0);
    MiddleAuthorized(r');
  }

  lemma MiddleAuthorized(r: Region)
    requires Valid(r) && !Best(r) && r.curr != Some(0) && r.gates.Keys == {0, 1, 2}
    requires r.gates[0].authority == 0 && r.gates[1].authority == 1 && r.gates[2].authority == 2
    ensures Authorized(r, 1, false) && !Highest(r, 1)
  {
    assert 2 in r.gates;
  }

  /** It lowers its authority below the other two, and the walk meets the lesser of them first. */
  lemma LesserGateTakesOver() returns (rs: seq<Region>, steps: seq<Step>, ts: seq<Transfer>)
    ensures IsLife(rs, steps, ts) && |steps| > 0 && steps[|steps| - 1] == SetAuthority(0, 0)
    ensures Valid(rs[|steps| - 1]) && Best(rs[|steps| - 1]) && Valid(rs[|steps|]) && !Best(rs[|steps|])
    ensures var r := rs[|steps|]; 1 in r.gates && Authorized(r, 1, false) && !Highest(r, 1)
  {
    rs, steps, ts := ThreeOpen();
    var r := rs[|steps|];
    assert 1 in Outranking(r, 0, 0) && 2 in Outranking(r, 0, 0);
    if |Outranking(r, 0, 0)| <= 1 {
      TwoMembers(Outranking(r, 0, 0), 1, 2);
    }
    var r', t := HolderUpdateNotBest(r, 0, 0);
    LesserAuthorized(r, r', t);
    LivesOn(rs, steps, ts, SetAuthority(0, 0), t, r');
    rs, steps, ts := rs + [r'], steps + [SetAuthority(0, 0)], ts + [t];
  }
}
