/**
 The channel registry of the time series engine: creating, rekeying and deleting channels
 (cesium/channel.go, cesium/delete.go, cesium/open.go).

 An open iterator or writer on a channel makes closing it fail; which channels have one is the parameter `busy`.
 File operations succeed, except that renaming a directory that does not exist fails.
 */
module Channels {
  import opened Common

  type Key = k: int | 0 <= k < 0x1_0000_0000

  datatype Channel = Channel(key: Key, isIndex: bool, dataType: string, rate: real, index: Key, virtual: bool)

  /** A persisted channel, and the key of the index channel whose database resolves its timestamps. */
  datatype Unary = Unary(ch: Channel, idx: Option<Key>)

  datatype Registry = Registry(unary: map<Key, Unary>, virtual: map<Key, Channel>, dirs: set<Key>)

  datatype Outcome = Outcome(reg: Registry, ok: bool)

  // ----- What the registry keeps -----

  /** The channel is described the way its metadata file requires, and its index exists. */
  predicate Sound(unary: map<Key, Unary>, k: Key)
    requires k in unary
  {
    var ch := unary[k].ch;
    && ch.key == k != 0
    && !ch.virtual
    && (ch.isIndex ==> ch.index == k)
    && (!ch.isIndex && ch.index != 0 ==> ch.index in unary && unary[ch.index].ch.isIndex)
    && (!ch.isIndex && ch.index == 0 ==> ch.rate > 0.0)
  }

  predicate SoundVirtual(virtual: map<Key, Channel>, k: Key)
    requires k in virtual
  {
    virtual[k].key == k != 0 && virtual[k].virtual
  }

  predicate Inv(r: Registry) {
    && r.unary.Keys !! r.virtual.Keys
    && (forall k | k in r.unary :: Sound(r.unary, k))
    && (forall k | k in r.virtual :: SoundVirtual(r.virtual, k))
    && r.unary.Keys + r.virtual.Keys <= r.dirs
  }

  /** The index a channel names, if it does not go by its rate. */
  function Named(ch: Channel): Option<Key> {
    if ch.index == 0 then None else Some(ch.index)
  }

  /** Every channel with an index holds the database of the index it names. */
  predicate Attached(r: Registry) {
    forall k | k in r.unary :: r.unary[k].idx == Named(r.unary[k].ch)
  }

  predicate Exists(r: Registry, k: Key) {
    k in r.unary || k in r.virtual
  }

  // ----- Creating -----

  predicate Creatable(r: Registry, ch: Channel) {
    && ch.key > 0
    && ch.dataType != ""
    && !Exists(r, ch.key)
    && (if ch.virtual then
          ch.index == 0 && ch.rate == 0.0
        else
          && ch.dataType != "string"
          && (if ch.isIndex then
                ch.dataType == "timestamp" && (ch.index == 0 || ch.index == ch.key)
              else if ch.index != 0 then
                ch.index in r.unary && r.unary[ch.index].ch.isIndex
              else
                ch.rate > 0.0))
  }

  /** `createChannel`: the directory is made before the metadata of a virtual index channel is refused. */
  function Create(r: Registry, ch: Channel): Outcome {
    if !Creatable(r, ch) then
      Outcome(r, false)
    else
      var c := if ch.isIndex then ch.(index := ch.key) else ch;
      var made := r.(dirs := r.dirs + {ch.key});
      if c.virtual then
        if c.index != 0 then
          Outcome(made, false)
        else
          Outcome(made.(virtual := r.virtual[c.key := c]), true)
      else
        Outcome(made.(unary := r.unary[c.key := Unary(c, Named(c))]), true)
  }

  lemma CreateKeeps(r: Registry, ch: Channel)
    requires Inv(r)
    ensures Inv(Create(r, ch).reg)
    ensures Attached(r) ==> Attached(Create(r, ch).reg)
  {
    var r' := Create(r, ch).reg;
    forall k | k in r'.unary
      ensures Sound(r'.unary, k)
    {
      if k != ch.key {
        assert Sound(r.unary, k);
      }
    }
    forall k | k in r'.virtual
      ensures SoundVirtual(r'.virtual, k)
    {
      if k in r.virtual {
        assert SoundVirtual(r.virtual, k);
      }
    }
  }

  /** The channel as it is registered: an index channel is its own index. */
  function Registered(ch: Channel): Channel {
    if ch.isIndex then ch.(index := ch.key) else ch
  }

  /** Every other channel is registered as before. */
  predicate OthersKept(r: Registry, r': Registry, k: Key) {
    r'.unary - {k} == r.unary - {k} && r'.virtual - {k} == r.virtual - {k}
  }

  /**
   A channel is created exactly when its key is free, its type fits its kind, and it would be sound in the registry; it is
   then the only change.  A refused channel changes nothing, but for the directory a virtual index channel leaves behind.
   */
  lemma CreateExact(r: Registry, ch: Channel)
    requires Inv(r)
    ensures var c, res := Registered(ch), Create(r, ch);
            && (res.ok <==>
                  && !Exists(r, ch.key) && ch.dataType != ""
                  && (if ch.virtual then
                        SoundVirtual(map[ch.key := ch], ch.key) && !ch.isIndex && ch.index == 0 && ch.rate == 0.0
                      else
                        && ch.dataType != "string" && Sound(r.unary[ch.key := Unary(c, Named(c))], ch.key)
                        && (ch.isIndex ==> ch.dataType == "timestamp" && ch.index in {0, ch.key})))
            && OthersKept(r, res.reg, ch.key)
            && (res.ok && ch.virtual ==> ch.key in res.reg.virtual && res.reg.virtual[ch.key] == ch)
            && (res.ok && !ch.virtual ==> ch.key in res.reg.unary && res.reg.unary[ch.key] == Unary(c, Named(c)))
            && (!res.ok ==> res.reg == r.(dirs := res.reg.dirs))
            && res.reg.dirs == r.dirs + if res.ok || (ch.virtual && ch.isIndex && Create(r, ch.(isIndex := false)).ok) then {ch.key} else {}
  {
    assert ch.key !in r.unary ==> r.unary[ch.key := Unary(Registered(ch), Named(Registered(ch)))] - {ch.key} == r.unary - {ch.key};
    assert ch.key !in r.virtual ==> r.virtual[ch.key := ch] - {ch.key} == r.virtual - {ch.key};
  }

  // ----- Rekeying -----

  /** The database reopened under its new key. Opening it sets an index only for an index channel. */
  function Moved(u: Unary, newKey: Key): Unary {
    if u.ch.isIndex then
      Unary(u.ch.(key := newKey, index := newKey), Some(newKey))
    else
      Unary(u.ch.(key := newKey), None)
  }

  /** A database that named `oldKey` as its index names `newKey` and holds the database reopened there. */
  function Redirected(u: Unary, oldKey: Key, newKey: Key): Unary {
    if u.ch.index == oldKey then Unary(u.ch.(index := newKey), Some(newKey)) else u
  }

  function Rekeyed(unary: map<Key, Unary>, oldKey: Key, newKey: Key): map<Key, Unary>
    requires oldKey in unary
  {
    var moved := (unary - {oldKey})[newKey := Moved(unary[oldKey], newKey)];
    if unary[oldKey].ch.isIndex then
      map k | k in moved :: if k == newKey then moved[k] else Redirected(moved[k], oldKey, newKey)
    else
      moved
  }

  /** Key zero is refused only when the metadata is written, after the directory has moved. */
  predicate Stranded(r: Registry, oldKey: Key, newKey: Key, busy: set<Key>) {
    newKey == 0 && !Exists(r, newKey) && Exists(r, oldKey) && oldKey !in busy
  }

  /** `RekeyChannel`. */
  function Rekey(r: Registry, oldKey: Key, newKey: Key, busy: set<Key>): Outcome {
    if Exists(r, newKey) then
      Outcome(r, false)
    else if !Exists(r, oldKey) then
      Outcome(r, true)
    else if oldKey in busy then
      Outcome(r, false)
    else
      var dirs := r.dirs - {oldKey} + {newKey};
      if newKey == 0 then
        Outcome(r.(dirs := dirs), false)
      else if oldKey in r.unary then
        Outcome(r.(unary := Rekeyed(r.unary, oldKey, newKey), dirs := dirs), true)
      else
        Outcome(r.(virtual := (r.virtual - {oldKey})[newKey := r.virtual[oldKey].(key := newKey)], dirs := dirs), true)
  }

  /** Rekeying keeps the registry whole exactly when it does not move an existing channel to key zero. */
  lemma RekeyKeepsIff(r: Registry, oldKey: Key, newKey: Key, busy: set<Key>)
    requires Inv(r)
    ensures Inv(Rekey(r, oldKey, newKey, busy).reg) <==> !Stranded(r, oldKey, newKey, busy)
  {
  }

  function Renamed(k: Key, oldKey: Key, newKey: Key): Key {
    if k == oldKey then newKey else k
  }

  /** One key has been replaced by another wherever it stood for a channel or for its index. */
  predicate RenamedThroughout(r: Registry, r': Registry, oldKey: Key, newKey: Key) {
    && (forall k: Key :: Exists(r', k) <==> k == newKey || (Exists(r, k) && k != oldKey))
    && (forall k | k in r.unary ::
          var ch, k' := r.unary[k].ch, Renamed(k, oldKey, newKey);
          k' in r'.unary && r'.unary[k'].ch == ch.(key := k', index := Renamed(ch.index, oldKey, newKey)))
    && (forall k | k in r.virtual ::
          var k' := Renamed(k, oldKey, newKey);
          k' in r'.virtual && r'.virtual[k'] == r.virtual[k].(key := k'))
    && r'.dirs == r.dirs - {oldKey} + {newKey}
  }

  /**
   Rekeying succeeds exactly when the new key is free and the channel, if there is one, is not open and does not go to key
   zero; it then renames that one key throughout, and otherwise leaves the channels alone.
   */
  lemma RekeyExact(r: Registry, oldKey: Key, newKey: Key, busy: set<Key>)
    requires Inv(r)
    ensures var res := Rekey(r, oldKey, newKey, busy);
            && (res.ok <==> !Exists(r, newKey) && (Exists(r, oldKey) ==> oldKey !in busy && newKey != 0))
            && (if res.ok && Exists(r, oldKey) then RenamedThroughout(r, res.reg, oldKey, newKey)
                else res.reg == r.(dirs := if Stranded(r, oldKey, newKey, busy) then r.dirs - {oldKey} + {newKey} else r.dirs))
  {
    var res := Rekey(r, oldKey, newKey, busy);
    if res.ok && Exists(r, oldKey) {
      forall k | k in r.unary
        ensures var ch, k' := r.unary[k].ch, Renamed(k, oldKey, newKey);
                k' in res.reg.unary && res.reg.unary[k'].ch == ch.(key := k', index := Renamed(ch.index, oldKey, newKey))
      {
        assert Sound(r.unary, k);
        if oldKey in r.unary {
          assert Sound(r.unary, oldKey);
        }
      }
      assert forall k | k in r.virtual :: SoundVirtual(r.virtual, k);
    }
  }

  /** A rekeyed channel that is indexed by another one. */
  predicate Detaches(r: Registry, oldKey: Key, newKey: Key, busy: set<Key>) {
    && oldKey in r.unary && !r.unary[oldKey].ch.isIndex && r.unary[oldKey].ch.index != 0
    && !Exists(r, newKey) && newKey != 0 && oldKey !in busy
  }

  /** Rekeying keeps every channel attached to its index exactly when the channel moved is not indexed by another. */
  lemma RekeyAttachedIff(r: Registry, oldKey: Key, newKey: Key, busy: set<Key>)
    requires Inv(r) && Attached(r)
    ensures Attached(Rekey(r, oldKey, newKey, busy).reg) <==> !Detaches(r, oldKey, newKey, busy)
  {
    var r' := Rekey(r, oldKey, newKey, busy).reg;
    if Detaches(r, oldKey, newKey, busy) {
      assert r'.unary[newKey].ch.index != 0 && r'.unary[newKey].idx == None;
    } else if r'.unary != r.unary {
      assert Sound(r.unary, oldKey);
      forall k | k in r'.unary
        ensures r'.unary[k].idx == Named(r'.unary[k].ch)
      {
        if k != newKey {
          assert Sound(r.unary, k);
        }
      }
    }
  }

  /** One entry of the map after rekeying there and back. */
  lemma RekeyedBackAt(unary: map<Key, Unary>, oldKey: Key, newKey: Key, k: Key)
    requires oldKey in unary && newKey !in unary && newKey != 0 && k in unary
    requires Sound(unary, k) && Sound(unary, oldKey)
    requires unary[oldKey].ch.isIndex || unary[oldKey].ch.index == 0
    requires unary[k].idx == Named(unary[k].ch)
    requires unary[k].ch.index != newKey
    ensures var back := Rekeyed(Rekeyed(unary, oldKey, newKey), newKey, oldKey);
            k in back && back[k] == unary[k]
  {
  }

  lemma RekeyedBack(unary: map<Key, Unary>, oldKey: Key, newKey: Key)
    requires forall k | k in unary :: Sound(unary, k) && unary[k].idx == Named(unary[k].ch)
    requires oldKey in unary && newKey !in unary && newKey != 0
    requires unary[oldKey].ch.isIndex || unary[oldKey].ch.index == 0
    ensures Rekeyed(Rekeyed(unary, oldKey, newKey), newKey, oldKey) == unary
  {
    var back := Rekeyed(Rekeyed(unary, oldKey, newKey), newKey, oldKey);
    assert back.Keys == unary.Keys;
    forall k | k in unary
      ensures back[k] == unary[k]
    {
      assert Sound(unary, k);
      RekeyedBackAt(unary, oldKey, newKey, k);
    }
  }

  /** Rekeying a channel and rekeying it back is invisible, dependents included. */
  lemma RekeyRoundTrip(r: Registry, oldKey: Key, newKey: Key, busy: set<Key>)
    requires Inv(r) && Attached(r)
    requires Exists(r, oldKey) && !Exists(r, newKey) && newKey != 0
    requires oldKey !in busy && newKey !in busy && newKey !in r.dirs
    requires !Detaches(r, oldKey, newKey, busy)
    ensures var there := Rekey(r, oldKey, newKey, busy);
            var back := Rekey(there.reg, newKey, oldKey, busy);
            there.ok && back.ok && back.reg == r
  {
    assert r.dirs - {oldKey} + {newKey} - {newKey} + {oldKey} == r.dirs;
    if oldKey in r.unary {
      assert Sound(r.unary, oldKey);
      RekeyedBack(r.unary, oldKey, newKey);
    } else {
      assert SoundVirtual(r.virtual, oldKey);
      var there := (r.virtual - {oldKey})[newKey := r.virtual[oldKey].(key := newKey)];
      assert (there - {newKey})[oldKey := there[newKey].(key := oldKey)] == r.virtual;
    }
  }

  /** Rekeying the data channel 2, indexed by channel 1, leaves it without an index to resolve timestamps with. */
  lemma RekeyDetaches()
    ensures var time := Unary(Channel(1, true, "timestamp", 0.0, 1, false), Some(1));
            var data := Unary(Channel(2, false, "int64", 0.0, 1, false), Some(1));
            var r := Registry(map[1 := time, 2 := data], map[], {1, 2});
            && Inv(r) && Attached(r)
            && Rekey(r, 2, 3, {}).ok
            && Rekey(r, 2, 3, {}).reg.unary[3] == Unary(data.ch.(key := 3), None)
  {
  }

  // ----- Deleting -----

  /** Another channel that names `k` as its index. */
  predicate Depends(unary: map<Key, Unary>, d: Key, k: Key) {
    d in unary && d != k && unary[d].ch.index == k
  }

  predicate HasDependent(unary: map<Key, Unary>, k: Key) {
    exists d | d in unary :: Depends(unary, d, k)
  }

  /** `removeChannel`: takes the channel out of the maps, leaving its directory. */
  function Remove(r: Registry, k: Key, busy: set<Key>): Outcome {
    if k in r.unary then
      if r.unary[k].ch.isIndex && HasDependent(r.unary, k) then
        Outcome(r, false)
      else if k in busy then
        Outcome(r, false)
      else
        Outcome(r.(unary := r.unary - {k}), true)
    else if k in r.virtual then
      if k in busy then Outcome(r, false) else Outcome(r.(virtual := r.virtual - {k}), true)
    else
      Outcome(r, true)
  }

  /** Renames the directory of a removed channel out of the way. */
  function Retire(r: Registry, k: Key): Outcome {
    if k in r.dirs then Outcome(r.(dirs := r.dirs - {k}), true) else Outcome(r, false)
  }

  /** `DeleteChannel`: that there is no directory is not an error. */
  function Delete(r: Registry, k: Key, busy: set<Key>): Outcome {
    var removed := Remove(r, k, busy);
    if removed.ok then Outcome(Retire(removed.reg, k).reg, true) else removed
  }

  /** One channel of either pass of `DeleteChannels`. */
  function Drop(p: Outcome, k: Key, busy: set<Key>): Outcome {
    if !p.ok then
      p
    else
      var removed := Remove(p.reg, k, busy);
      if removed.ok then Retire(removed.reg, k) else removed
  }

  function DropData(p: Outcome, k: Key, busy: set<Key>): Outcome {
    if k !in p.reg.unary || p.reg.unary[k].ch.isIndex then p else Drop(p, k, busy)
  }

  function FirstPass(r: Registry, chs: seq<Key>, busy: set<Key>): Outcome {
    if chs == [] then Outcome(r, true) else DropData(FirstPass(r, chs[..|chs| - 1], busy), chs[|chs| - 1], busy)
  }

  function SecondPass(r: Registry, chs: seq<Key>, busy: set<Key>): Outcome {
    if chs == [] then Outcome(r, true) else Drop(SecondPass(r, chs[..|chs| - 1], busy), chs[|chs| - 1], busy)
  }

  predicate IsIndexIn(r: Registry, k: Key) {
    k in r.unary && r.unary[k].ch.isIndex
  }

  /** The index channels named, in order, as often as they are named. */
  function Indexes(r: Registry, chs: seq<Key>): seq<Key> {
    if chs == [] then
      []
    else
      var k := chs[|chs| - 1];
      Indexes(r, chs[..|chs| - 1]) + if IsIndexIn(r, k) then [k] else []
  }

  /** `DeleteChannels`: data channels first, then index channels. */
  function DeleteMany(r: Registry, chs: seq<Key>, busy: set<Key>): Outcome {
    var first := FirstPass(r, chs, busy);
    if first.ok then SecondPass(first.reg, Indexes(r, chs), busy) else first
  }

  lemma RemoveKeeps(r: Registry, k: Key, busy: set<Key>)
    requires Inv(r)
    ensures Inv(Remove(r, k, busy).reg)
    ensures Remove(r, k, busy).ok ==> !Exists(Remove(r, k, busy).reg, k)
    ensures Attached(r) ==> Attached(Remove(r, k, busy).reg)
  {
  }

  /** Only an index channel has dependents, and it is a persisted one. */
  lemma DependedOn(r: Registry, k: Key)
    requires Inv(r) && HasDependent(r.unary, k) && k != 0
    ensures IsIndexIn(r, k)
  {
    var d :| d in r.unary && Depends(r.unary, d, k);
    assert Sound(r.unary, d);
  }

  /**
   Deleting one channel, persisted or virtual, succeeds exactly when there is none, or no one has it open and no other
   channel names it as its index; that channel and its directory are then all that is gone, and otherwise nothing is.
   */
  lemma DeleteExact(r: Registry, k: Key, busy: set<Key>)
    requires Inv(r)
    ensures var res := Delete(r, k, busy);
            && (res.ok <==> Exists(r, k) ==> k !in busy && !HasDependent(r.unary, k))
            && OthersKept(r, res.reg, k)
            && (if res.ok then !Exists(res.reg, k) && res.reg.dirs == r.dirs - {k} else res.reg == r)
  {
    if Exists(r, k) && HasDependent(r.unary, k) {
      DependedOn(r, k);
    }
  }

  lemma DropKeeps(p: Outcome, k: Key, busy: set<Key>)
    requires Inv(p.reg)
    ensures Inv(Drop(p, k, busy).reg)
    ensures Attached(p.reg) ==> Attached(Drop(p, k, busy).reg)
  {
    RemoveKeeps(p.reg, k, busy);
    var removed := Remove(p.reg, k, busy).reg;
    var r' := Drop(p, k, busy).reg;
    assert r'.unary == removed.unary || r' == p.reg;
    assert r'.virtual == removed.virtual || r' == p.reg;
  }

  /** The data channels among those named. */
  ghost function Data(r: Registry, chs: seq<Key>): set<Key> {
    set k | k in chs && k in r.unary && !r.unary[k].ch.isIndex
  }

  ghost function Without(r: Registry, ks: set<Key>): Registry {
    r.(unary := r.unary - ks, dirs := r.dirs - ks)
  }

  lemma MemberSnoc(chs: seq<Key>, k: Key)
    requires chs != []
    ensures k in chs <==> k in chs[..|chs| - 1] || k == chs[|chs| - 1]
  {
  }

  lemma DataSnoc(r: Registry, chs: seq<Key>)
    requires chs != []
    ensures var k := chs[|chs| - 1];
            Data(r, chs) == Data(r, chs[..|chs| - 1]) + if k in r.unary && !IsIndexIn(r, k) then {k} else {}
  {
  }

  lemma {:induction false} FirstPassExact(r: Registry, chs: seq<Key>, busy: set<Key>)
    requires Inv(r)
    ensures Inv(FirstPass(r, chs, busy).reg)
    ensures Attached(r) ==> Attached(FirstPass(r, chs, busy).reg)
    ensures FirstPass(r, chs, busy).ok <==> Data(r, chs) !! busy
    ensures FirstPass(r, chs, busy).ok ==> FirstPass(r, chs, busy).reg == Without(r, Data(r, chs))
  {
    if chs != [] {
      var prefix, k := chs[..|chs| - 1], chs[|chs| - 1];
      var p := FirstPass(r, prefix, busy);
      FirstPassExact(r, prefix, busy);
      DataSnoc(r, chs);
      DropKeeps(p, k, busy);
      if p.ok {
        DropDatum(r, p.reg, Data(r, prefix), k, busy);
      }
    }
  }

  /** Dropping one more data channel when `gone` have been dropped and were closed. */
  lemma DropDatum(r: Registry, p: Registry, gone: set<Key>, k: Key, busy: set<Key>)
    requires Inv(r) && p == Without(r, gone) && gone !! busy
    requires forall g | g in gone :: g in r.unary && !IsIndexIn(r, g)
    ensures var q := DropData(Outcome(p, true), k, busy);
            var all := gone + if k in r.unary && !IsIndexIn(r, k) then {k} else {};
            && (q.ok <==> all !! busy)
            && (q.ok ==> q.reg == Without(r, all))
  {
  }

  predicate Distinct(chs: seq<Key>) {
    forall i, j | 0 <= i < j < |chs| :: chs[i] != chs[j]
  }

  lemma DistinctSnoc(chs: seq<Key>)
    requires chs != []
    ensures Distinct(chs) <==> Distinct(chs[..|chs| - 1]) && chs[|chs| - 1] !in chs[..|chs| - 1]
  {
  }

  /** The second pass succeeds exactly on distinct channels that are closed and have no dependents. */
  ghost predicate Closable(r: Registry, chs: seq<Key>, busy: set<Key>) {
    && Distinct(chs)
    && forall k | k in chs :: k !in busy && !HasDependent(r.unary, k)
  }

  lemma ClosableSnoc(r: Registry, chs: seq<Key>, busy: set<Key>)
    requires chs != []
    ensures var prefix, k := chs[..|chs| - 1], chs[|chs| - 1];
            Closable(r, chs, busy) <==> Closable(r, prefix, busy) && k !in prefix && k !in busy && !HasDependent(r.unary, k)
  {
  }

  ghost function Members(chs: seq<Key>): set<Key> {
    set k | k in chs
  }

  lemma MembersSnoc(chs: seq<Key>)
    requires chs != []
    ensures Members(chs) == Members(chs[..|chs| - 1]) + {chs[|chs| - 1]}
  {
  }

  lemma {:induction false} SecondPassExact(r: Registry, chs: seq<Key>, busy: set<Key>)
    requires Inv(r) && forall k | k in chs :: IsIndexIn(r, k)
    ensures Inv(SecondPass(r, chs, busy).reg)
    ensures Attached(r) ==> Attached(SecondPass(r, chs, busy).reg)
    ensures SecondPass(r, chs, busy).ok <==> Closable(r, chs, busy)
    ensures SecondPass(r, chs, busy).ok ==> SecondPass(r, chs, busy).reg == Without(r, Members(chs))
  {
    if chs != [] {
      var prefix, k := chs[..|chs| - 1], chs[|chs| - 1];
      var p := SecondPass(r, prefix, busy);
      SecondPassExact(r, prefix, busy);
      ClosableSnoc(r, chs, busy);
      MembersSnoc(chs);
      DropKeeps(p, k, busy);
      if p.ok {
        DropIndex(r, p.reg, Members(prefix), k, busy);
      }
    }
  }

  /** Dropping one more index channel when `gone` have been dropped. */
  lemma DropIndex(r: Registry, p: Registry, gone: set<Key>, k: Key, busy: set<Key>)
    requires Inv(r) && p == Without(r, gone)
    requires IsIndexIn(r, k) && forall g | g in gone :: IsIndexIn(r, g)
    ensures var q := Drop(Outcome(p, true), k, busy);
            && (q.ok <==> k !in gone && k !in busy && !HasDependent(r.unary, k))
            && (q.ok ==> q.reg == Without(r, gone + {k}))
  {
  }

  lemma {:induction false} IndexesMembers(r: Registry, chs: seq<Key>, k: Key)
    ensures k in Indexes(r, chs) <==> k in chs && IsIndexIn(r, k)
  {
    if chs != [] {
      IndexesMembers(r, chs[..|chs| - 1], k);
      MemberSnoc(chs, k);
    }
  }

  /** No index channel is named twice. */
  predicate IndexesOnce(r: Registry, chs: seq<Key>) {
    forall i, j | 0 <= i < j < |chs| && IsIndexIn(r, chs[i]) :: chs[i] != chs[j]
  }

  lemma {:induction false} IndexesDistinct(r: Registry, chs: seq<Key>)
    ensures Distinct(Indexes(r, chs)) <==> IndexesOnce(r, chs)
  {
    if chs != [] {
      var prefix, k := chs[..|chs| - 1], chs[|chs| - 1];
      IndexesDistinct(r, prefix);
      IndexesMembers(r, prefix, k);
      assert forall i | 0 <= i < |prefix| :: prefix[i] == chs[i];
      assert IndexesOnce(r, chs) <==> IndexesOnce(r, prefix) && (IsIndexIn(r, k) ==> k !in prefix);
      if IsIndexIn(r, k) {
        var ixs := Indexes(r, chs);
        assert ixs[..|ixs| - 1] == Indexes(r, prefix);
        DistinctSnoc(ixs);
      } else {
        assert Indexes(r, chs) == Indexes(r, prefix);
      }
    }
  }

  /** Nothing named is open, no index is named twice, and every dependent of a named index is named. */
  ghost predicate Deletable(r: Registry, chs: seq<Key>, busy: set<Key>) {
    && (forall k | k in chs && k in r.unary :: k !in busy)
    && IndexesOnce(r, chs)
    && (forall d, k | d in r.unary && k in chs && IsIndexIn(r, k) && Depends(r.unary, d, k) :: d in chs)
  }

  /** Once the named data channels are gone, an index has dependents left exactly when one was not named. */
  lemma DependentsLeft(r: Registry, chs: seq<Key>, k: Key)
    requires Inv(r) && IsIndexIn(r, k)
    ensures HasDependent(r.unary - Data(r, chs), k) <==> exists d | d in r.unary && Depends(r.unary, d, k) :: d !in chs
  {
    var left := r.unary - Data(r, chs);
    if d :| d in r.unary && Depends(r.unary, d, k) && d !in chs {
      assert Depends(left, d, k);
    }
    if d :| d in left && Depends(left, d, k) {
      assert Sound(r.unary, d);
      assert Depends(r.unary, d, k);
    }
  }

  lemma ClosableAfterData(r: Registry, chs: seq<Key>, busy: set<Key>)
    requires Inv(r)
    ensures Data(r, chs) !! busy && Closable(Without(r, Data(r, chs)), Indexes(r, chs), busy) <==> Deletable(r, chs, busy)
  {
    IndexesDistinct(r, chs);
    forall k
      ensures k in Indexes(r, chs) <==> k in chs && IsIndexIn(r, k)
    {
      IndexesMembers(r, chs, k);
    }
    forall k | k in chs && IsIndexIn(r, k)
      ensures HasDependent(r.unary - Data(r, chs), k) <==> exists d | d in r.unary && Depends(r.unary, d, k) :: d !in chs
    {
      DependentsLeft(r, chs, k);
    }
    if Data(r, chs) !! busy && Closable(Without(r, Data(r, chs)), Indexes(r, chs), busy) {
      forall k | k in chs && k in r.unary
        ensures k !in busy
      {
        assert k in Data(r, chs) || k in Indexes(r, chs);
      }
    }
  }

  /**
   Bulk deletion succeeds exactly when nothing named is open, no index is named twice and no dependent of a named
   index is left out; it then removes exactly the persisted channels named, in whatever order they are named. Virtual
   channels stay. It keeps the registry whole whether or not it succeeds.
   */
  lemma DeleteManyExact(r: Registry, chs: seq<Key>, busy: set<Key>)
    requires Inv(r)
    ensures Inv(DeleteMany(r, chs, busy).reg)
    ensures Attached(r) ==> Attached(DeleteMany(r, chs, busy).reg)
    ensures DeleteMany(r, chs, busy).ok <==> Deletable(r, chs, busy)
    ensures DeleteMany(r, chs, busy).ok ==>
              DeleteMany(r, chs, busy).reg == Without(r, set k | k in chs && k in r.unary)
  {
    var data := Data(r, chs);
    var p := FirstPass(r, chs, busy);
    FirstPassExact(r, chs, busy);
    ClosableAfterData(r, chs, busy);
    if p.ok {
      IndexesRemain(r, chs);
      SecondPassExact(p.reg, Indexes(r, chs), busy);
      WithoutTwice(r, chs);
    }
  }

  lemma IndexesRemain(r: Registry, chs: seq<Key>)
    ensures forall k | k in Indexes(r, chs) :: IsIndexIn(Without(r, Data(r, chs)), k)
  {
  }

  lemma WithoutTwice(r: Registry, chs: seq<Key>)
    ensures Without(Without(r, Data(r, chs)), Members(Indexes(r, chs))) == Without(r, set k | k in chs && k in r.unary)
  {
    var data, ixs, named := Data(r, chs), Members(Indexes(r, chs)), set k | k in chs && k in r.unary;
    forall k
      ensures k in named <==> k in data || k in ixs
    {
      IndexesMembers(r, chs, k);
    }
    assert named == data + ixs;
    assert r.unary - data - ixs == r.unary - named;
    assert r.dirs - data - ixs == r.dirs - named;
  }

  // ----- Runs -----

  datatype Step =
    | CreateChannel(ch: Channel)
    | RekeyChannel(oldKey: Key, newKey: Key, busy: set<Key>)
    | DeleteChannel(key: Key, busy: set<Key>)
    | DeleteChannels(keys: seq<Key>, busy: set<Key>)

  function Next(r: Registry, s: Step): Outcome {
    match s
    case CreateChannel(ch) => Create(r, ch)
    case RekeyChannel(oldKey, newKey, busy) => Rekey(r, oldKey, newKey, busy)
    case DeleteChannel(key, busy) => Delete(r, key, busy)
    case DeleteChannels(keys, busy) => DeleteMany(r, keys, busy)
  }

  const EMPTY := Registry(map[], map[], {})

  function Run(steps: seq<Step>): Registry {
    if steps == [] then EMPTY else Next(Run(steps[..|steps| - 1]), steps[|steps| - 1]).reg
  }

  /** No step of the run moves an existing channel to key zero. */
  predicate NeverStrands(steps: seq<Step>) {
    steps != [] ==>
      && NeverStrands(steps[..|steps| - 1])
      && var s := steps[|steps| - 1];
         s.RekeyChannel? ==> !Stranded(Run(steps[..|steps| - 1]), s.oldKey, s.newKey, s.busy)
  }

  /** No step of the run rekeys a channel indexed by another. */
  predicate NeverDetaches(steps: seq<Step>) {
    steps != [] ==>
      && NeverDetaches(steps[..|steps| - 1])
      && var s := steps[|steps| - 1];
         s.RekeyChannel? ==> !Detaches(Run(steps[..|steps| - 1]), s.oldKey, s.newKey, s.busy)
  }

  lemma StepKeeps(r: Registry, s: Step)
    requires Inv(r) && (s.RekeyChannel? ==> !Stranded(r, s.oldKey, s.newKey, s.busy))
    ensures Inv(Next(r, s).reg)
    ensures Attached(r) && (s.RekeyChannel? ==> !Detaches(r, s.oldKey, s.newKey, s.busy)) ==> Attached(Next(r, s).reg)
  {
    match s
    case CreateChannel(ch) => CreateKeeps(r, ch);
    case RekeyChannel(oldKey, newKey, busy) =>
      RekeyKeepsIff(r, oldKey, newKey, busy);
      if Attached(r) {
        RekeyAttachedIff(r, oldKey, newKey, busy);
      }
    case DeleteChannel(key, busy) => DropKeeps(Outcome(r, true), key, busy);
    case DeleteChannels(keys, busy) => DeleteManyExact(r, keys, busy);
  }

  /**
   Over every run, with requests refused or not: keys of persisted and virtual channels stay disjoint, every stored
   key is its channel's key, and every index named is an existing index channel.
   */
  lemma {:induction false} RunKeepsIntegrity(steps: seq<Step>)
    requires NeverStrands(steps)
    ensures Inv(Run(steps))
    ensures NeverDetaches(steps) ==> Attached(Run(steps))
  {
    if steps != [] {
      RunKeepsIntegrity(steps[..|steps| - 1]);
      StepKeeps(Run(steps[..|steps| - 1]), steps[|steps| - 1]);
    }
  }

  /** Every step of the run succeeds. */
  predicate ErrorFree(steps: seq<Step>) {
    steps != [] ==>
      && ErrorFree(steps[..|steps| - 1])
      && Next(Run(steps[..|steps| - 1]), steps[|steps| - 1]).ok
  }

  lemma {:induction false} ErrorFreeKeepsIntegrity(steps: seq<Step>)
    requires ErrorFree(steps)
    ensures NeverStrands(steps) && Inv(Run(steps))
  {
    if steps != [] {
      ErrorFreeKeepsIntegrity(steps[..|steps| - 1]);
    }
    RunKeepsIntegrity(steps);
  }

  // ----- The registry in memory -----

  class DB {
    var unary: map<Key, Unary>
    var virtual: map<Key, Channel>
    var dirs: set<Key>

    ghost function View(): Registry
      reads this
    {
      Registry(unary, virtual, dirs)
    }

    constructor ()
      ensures View() == EMPTY
    {
      unary, virtual, dirs := map[], map[], {};
    }

    method CreateChannel(ch: Channel) returns (ok: bool)
      modifies this
      ensures Outcome(View(), ok) == Create(old(View()), ch)
    {
      if !Creatable(Registry(unary, virtual, dirs), ch) {
        return false;
      }
      var c := ch;
      if c.isIndex {
        c := c.(index := c.key);
      }
      dirs := dirs + {c.key};
      if c.virtual {
        if c.index != 0 {
          return false;
        }
        virtual := virtual[c.key := c];
      } else {
        unary := unary[c.key := Unary(c, Named(c))];
      }
      return true;
    }

    /** Visits the other databases in any order. */
    method Redirect(oldKey: Key, newKey: Key)
      modifies this`unary
      ensures unary == map k | k in old(unary) ::
                if k == newKey then old(unary)[k] else Redirected(old(unary)[k], oldKey, newKey)
    {
      var left := unary.Keys;
      while left != {}
        invariant left <= unary.Keys == old(unary).Keys
        invariant forall k | k in left :: unary[k] == old(unary)[k]
        invariant forall k | k in unary && k !in left ::
            unary[k] == if k == newKey then old(unary)[k] else Redirected(old(unary)[k], oldKey, newKey)
        decreases left
      {
        var k :| k in left;
        left := left - {k};
        if unary[k].ch.index == oldKey && k != newKey {
          unary := unary[k := Unary(unary[k].ch.(index := newKey), Some(newKey))];
        }
      }
    }

    method RekeyChannel(oldKey: Key, newKey: Key, busy: set<Key>) returns (ok: bool)
      modifies this
      ensures Outcome(View(), ok) == Rekey(old(View()), oldKey, newKey, busy)
    {
      if newKey in unary || newKey in virtual {
        return false;
      }
      if oldKey in unary {
        var u := unary[oldKey];
        if oldKey in busy {
          return false;
        }
        dirs := dirs - {oldKey} + {newKey};
        if newKey == 0 {
          return false;
        }
        unary := (unary - {oldKey})[newKey := Moved(u, newKey)];
        if u.ch.isIndex {
          Redirect(oldKey, newKey);
        }
        return true;
      }
      if oldKey in virtual {
        if oldKey in busy {
          return false;
        }
        dirs := dirs - {oldKey} + {newKey};
        if newKey == 0 {
          return false;
        }
        virtual := (virtual - {oldKey})[newKey := virtual[oldKey].(key := newKey)];
      }
      return true;
    }

    /** Looks at the other databases in any order. */
    method FindDependent(k: Key) returns (found: bool)
      requires k in unary && unary[k].ch.key == k
      ensures found <==> HasDependent(unary, k)
    {
      var left := unary.Keys;
      while left != {}
        invariant left <= unary.Keys
        invariant forall d | d in unary && d !in left :: !Depends(unary, d, k)
        decreases left
      {
        var d :| d in left;
        left := left - {d};
        if d != k && unary[d].ch.index == unary[k].ch.key {
          assert Depends(unary, d, k);
          return true;
        }
      }
      return false;
    }

    method RemoveChannel(k: Key, busy: set<Key>) returns (ok: bool)
      requires Inv(View())
      modifies this
      ensures Outcome(View(), ok) == Remove(old(View()), k, busy)
    {
      if k in unary {
        assert Sound(unary, k);
        if unary[k].ch.isIndex {
          var found := FindDependent(k);
          if found {
            return false;
          }
        }
        if k in busy {
          return false;
        }
        unary := unary - {k};
        return true;
      }
      if k in virtual {
        if k in busy {
          return false;
        }
        virtual := virtual - {k};
      }
      return true;
    }

    method DeleteChannel(k: Key, busy: set<Key>) returns (ok: bool)
      requires Inv(View())
      modifies this
      ensures Outcome(View(), ok) == Delete(old(View()), k, busy)
    {
      ok := RemoveChannel(k, busy);
      if ok {
        dirs := dirs - {k};
      }
    }

    /** Removes one channel and moves its directory away. */
    method DropOne(k: Key, busy: set<Key>) returns (ok: bool)
      requires Inv(View())
      modifies this
      ensures Outcome(View(), ok) == Drop(Outcome(old(View()), true), k, busy)
      ensures Inv(View())
    {
      DropKeeps(Outcome(View(), true), k, busy);
      ok := RemoveChannel(k, busy);
      if ok {
        ok := k in dirs;
        dirs := dirs - {k};
      }
    }

    /** The first pass: drops the data channels and collects the index channels. */
    method DropDataChannels(chs: seq<Key>, busy: set<Key>) returns (ok: bool, indexes: seq<Key>)
      requires Inv(View())
      modifies this
      ensures Outcome(View(), ok) == FirstPass(old(View()), chs, busy)
      ensures ok ==> indexes == Indexes(old(View()), chs)
      ensures Inv(View())
    {
      ghost var was := View();
      indexes := [];
      for i := 0 to |chs|
        invariant Inv(View()) && Outcome(View(), true) == FirstPass(was, chs[..i], busy)
        invariant indexes == Indexes(was, chs[..i])
      {
        assert chs[..i + 1][..i] == chs[..i];
        var k := chs[i];
        FirstPassIndexes(was, chs[..i], busy, k);
        if k !in unary || unary[k].ch.isIndex {
          if k in unary && unary[k].ch.isIndex {
            indexes := indexes + [k];
          }
        } else {
          ok := DropOne(k, busy);
          if !ok {
            FirstPassStops(was, chs, i + 1, busy);
            return;
          }
        }
      }
      assert chs[..|chs|] == chs;
      ok := true;
    }

    method DropIndexChannels(indexes: seq<Key>, busy: set<Key>) returns (ok: bool)
      requires Inv(View())
      modifies this
      ensures Outcome(View(), ok) == SecondPass(old(View()), indexes, busy)
    {
      ghost var was := View();
      for i := 0 to |indexes|
        invariant Inv(View()) && Outcome(View(), true) == SecondPass(was, indexes[..i], busy)
      {
        assert indexes[..i + 1][..i] == indexes[..i];
        ok := DropOne(indexes[i], busy);
        if !ok {
          SecondPassStops(was, indexes, i + 1, busy);
          return;
        }
      }
      assert indexes[..|indexes|] == indexes;
      return true;
    }

    method DeleteChannels(chs: seq<Key>, busy: set<Key>) returns (ok: bool)
      requires Inv(View())
      modifies this
      ensures Outcome(View(), ok) == DeleteMany(old(View()), chs, busy)
    {
      var indexes;
      ok, indexes := DropDataChannels(chs, busy);
      if ok {
        ok := DropIndexChannels(indexes, busy);
      }
    }
  }

  /** The first pass neither removes nor makes an index channel. */
  lemma {:induction false} FirstPassIndexes(r: Registry, chs: seq<Key>, busy: set<Key>, k: Key)
    ensures IsIndexIn(FirstPass(r, chs, busy).reg, k) <==> IsIndexIn(r, k)
  {
    if chs != [] {
      FirstPassIndexes(r, chs[..|chs| - 1], busy, k);
    }
  }

  lemma {:induction false} FirstPassStops(r: Registry, chs: seq<Key>, i: nat, busy: set<Key>)
    requires i <= |chs| && !FirstPass(r, chs[..i], busy).ok
    ensures FirstPass(r, chs, busy) == FirstPass(r, chs[..i], busy)
  {
    if i < |chs| {
      assert chs[..|chs| - 1][..i] == chs[..i];
      FirstPassStops(r, chs[..|chs| - 1], i, busy);
    } else {
      assert chs[..i] == chs;
    }
  }

  lemma {:induction false} SecondPassStops(r: Registry, chs: seq<Key>, i: nat, busy: set<Key>)
    requires i <= |chs| && !SecondPass(r, chs[..i], busy).ok
    ensures SecondPass(r, chs, busy) == SecondPass(r, chs[..i], busy)
  {
    if i < |chs| {
      assert chs[..|chs| - 1][..i] == chs[..i];
      SecondPassStops(r, chs[..|chs| - 1], i, busy);
    } else {
      assert chs[..i] == chs;
    }
  }
}
