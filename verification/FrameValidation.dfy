/**
 Validation of the frames written to a group of channels sharing an index
 (cesium/writer_stream.go:322-386, 423-487).

 A duplicate channel in a frame is detected by comparing how often the channel has been written
 with how often the group's writer has been called.
 */
module FrameValidation {
  import opened Common

  type ChannelKey = nat

  /** What validation looks at in a series: its length, and whether its data type has a known density. */
  datatype Series = Series(length: nat, known: bool)

  datatype Frame = Frame(keys: seq<ChannelKey>, series: seq<Series>)

  predicate WellFormed(fr: Frame) {
    |fr.keys| == |fr.series|
  }

  /** Times each channel of the group has been written. */
  type Times = map<ChannelKey, int>

  // ----- The scan -----

  datatype Scan = Scan(times: Times, length: int, count: nat, ok: bool)

  /** One series of the frame. */
  function ScanOne(s: Scan, calls: int, key: ChannelKey, series: Series): Scan {
    if !s.ok || key !in s.times then
      s
    else if s.length == -1 && !series.known then
      s.(ok := false)
    else
      var length := if s.length == -1 then series.length else s.length;
      if s.times[key] == calls then
        s.(length := length, ok := false)
      else
        Scan(s.times[key := s.times[key] + 1], length, s.count + 1, series.length == length)
  }

  function ScanTo(times: Times, calls: int, fr: Frame, n: nat): Scan
    requires WellFormed(fr) && n <= |fr.keys|
  {
    if n == 0 then Scan(times, -1, 0, true)
    else ScanOne(ScanTo(times, calls, fr, n - 1), calls, fr.keys[n - 1], fr.series[n - 1])
  }

  function Accepts(times: Times, calls: int, fr: Frame): bool
    requires WellFormed(fr)
  {
    var s := ScanTo(times, calls, fr, |fr.keys|);
    s.ok && (s.count == 0 || s.count == |times|)
  }

  // ----- What the scan counts -----

  /** How often `k` occurs among the first `n` keys. */
  function Occurrences(fr: Frame, n: nat, k: ChannelKey): nat
    requires n <= |fr.keys|
  {
    if n == 0 then 0 else Occurrences(fr, n - 1, k) + (if fr.keys[n - 1] == k then 1 else 0)
  }

  /** How many of the first `n` keys are channels of the group. */
  function Members(times: Times, fr: Frame, n: nat): nat
    requires n <= |fr.keys|
  {
    if n == 0 then 0 else Members(times, fr, n - 1) + (if fr.keys[n - 1] in times then 1 else 0)
  }

  /** The length of the first series of the group among the first `n`, or -1. */
  function FirstLength(times: Times, fr: Frame, n: nat): int
    requires WellFormed(fr) && n <= |fr.keys|
  {
    if n == 0 then -1
    else if FirstLength(times, fr, n - 1) != -1 then FirstLength(times, fr, n - 1)
    else if fr.keys[n - 1] in times then fr.series[n - 1].length
    else -1
  }

  /** The series of the group among the first `n` have one length, and the first of them a known density. */
  predicate Even(times: Times, fr: Frame, n: nat)
    requires WellFormed(fr) && n <= |fr.keys|
  {
    n == 0 ||
    (Even(times, fr, n - 1) &&
     (fr.keys[n - 1] in times ==>
        if FirstLength(times, fr, n - 1) == -1 then fr.series[n - 1].known
        else fr.series[n - 1].length == FirstLength(times, fr, n - 1)))
  }

  /** All series of the group have the same length, and the first of them a known density. */
  predicate SameLengths(times: Times, fr: Frame)
    requires WellFormed(fr)
  {
    && (forall i, j | 0 <= i < j < |fr.keys| && fr.keys[i] in times && fr.keys[j] in times :: fr.series[i].length == fr.series[j].length)
    && (forall i | 0 <= i < |fr.keys| && IsFirst(times, fr, i) :: fr.series[i].known)
  }

  /** The first key of the frame that is a channel of the group. */
  predicate IsFirst(times: Times, fr: Frame, i: nat)
    requires i < |fr.keys|
  {
    fr.keys[i] in times && forall j | 0 <= j < i :: fr.keys[j] !in times
  }

  /** The length compared with is that of the first series of the group. */
  lemma {:induction false} FirstLengthMeaning(times: Times, fr: Frame, n: nat)
    requires WellFormed(fr) && n <= |fr.keys|
    ensures FirstLength(times, fr, n) == -1 <==> forall j | 0 <= j < n :: fr.keys[j] !in times
    ensures forall i | 0 <= i < n && IsFirst(times, fr, i) :: FirstLength(times, fr, n) == fr.series[i].length
  {
    if n > 0 {
      FirstLengthMeaning(times, fr, n - 1);
    }
  }

  lemma {:induction false} EvenPrefix(times: Times, fr: Frame, n: nat)
    requires WellFormed(fr) && n <= |fr.keys|
    ensures Even(times, fr, n) <==>
            && (forall i | 0 <= i < n && fr.keys[i] in times :: fr.series[i].length == FirstLength(times, fr, n))
            && (forall i | 0 <= i < n && IsFirst(times, fr, i) :: fr.series[i].known)
  {
    if n > 0 {
      EvenPrefix(times, fr, n - 1);
      FirstLengthMeaning(times, fr, n - 1);
    }
  }

  lemma {:induction false} HasFirst(times: Times, fr: Frame, i: nat) returns (f: nat)
    requires i < |fr.keys| && fr.keys[i] in times
    ensures f <= i && IsFirst(times, fr, f)
  {
    f := i;
    if j :| 0 <= j < i && fr.keys[j] in times {
      f := HasFirst(times, fr, j);
    }
  }

  lemma EvenMeaning(times: Times, fr: Frame)
    requires WellFormed(fr)
    ensures Even(times, fr, |fr.keys|) <==> SameLengths(times, fr)
  {
    var n := |fr.keys|;
    EvenPrefix(times, fr, n);
    FirstLengthMeaning(times, fr, n);
    if SameLengths(times, fr) {
      forall i | 0 <= i < n && fr.keys[i] in times
        ensures fr.series[i].length == FirstLength(times, fr, n)
      {
        var f := HasFirst(times, fr, i);
      }
    }
  }

  /** No channel occurs more often than its count lags behind the calls. */
  predicate WithinLag(times: Times, calls: int, fr: Frame, n: nat)
    requires n <= |fr.keys|
  {
    forall k | k in times :: Occurrences(fr, n, k) <= calls - times[k]
  }

  predicate NotAhead(times: Times, calls: int) {
    forall k | k in times :: times[k] < calls
  }

  lemma {:induction false} ScanMeaning(times: Times, calls: int, fr: Frame, n: nat)
    requires WellFormed(fr) && n <= |fr.keys| && NotAhead(times, calls)
    ensures var s := ScanTo(times, calls, fr, n);
            && (s.ok <==> Even(times, fr, n) && WithinLag(times, calls, fr, n))
            && s.times.Keys == times.Keys
            && (s.ok ==> s.length == FirstLength(times, fr, n) && s.count == Members(times, fr, n))
            && (s.ok ==> forall k | k in times :: s.times[k] == times[k] + Occurrences(fr, n, k))
  {
    if n > 0 {
      ScanMeaning(times, calls, fr, n - 1);
      var s, key := ScanTo(times, calls, fr, n - 1), fr.keys[n - 1];
      LagShrinks(times, calls, fr, n);
      if s.ok && key in times {
        assert WithinLag(times, calls, fr, n) <==> Occurrences(fr, n - 1, key) + 1 <= calls - times[key];
      }
    }
  }

  lemma LagShrinks(times: Times, calls: int, fr: Frame, n: nat)
    requires 0 < n <= |fr.keys|
    ensures WithinLag(times, calls, fr, n) ==> WithinLag(times, calls, fr, n - 1)
    ensures WithinLag(times, calls, fr, n - 1) ==>
              (WithinLag(times, calls, fr, n) <==>
               fr.keys[n - 1] !in times || Occurrences(fr, n, fr.keys[n - 1]) <= calls - times[fr.keys[n - 1]])
  {
  }

  /**
   A frame is accepted exactly when its series for the group have the same length, no channel occurs more often than its count lags
   behind the calls, and it names none of the group or as many series as the group has channels.
   */
  lemma AcceptsIff(times: Times, calls: int, fr: Frame)
    requires WellFormed(fr) && NotAhead(times, calls)
    ensures var n := |fr.keys|;
            Accepts(times, calls, fr) <==>
              && SameLengths(times, fr) && WithinLag(times, calls, fr, n)
              && (Members(times, fr, n) == 0 || Members(times, fr, n) == |times|)
  {
    ScanMeaning(times, calls, fr, |fr.keys|);
    EvenMeaning(times, fr);
  }

  // ----- Exactly once -----

  predicate ExactlyOnce(times: Times, fr: Frame) {
    forall k | k in times :: Occurrences(fr, |fr.keys|, k) == 1
  }

  /** Channels of the group among the first `n` keys. */
  function Seen(times: Times, fr: Frame, n: nat): set<ChannelKey>
    requires n <= |fr.keys|
  {
    set k | k in times && Occurrences(fr, n, k) > 0
  }

  predicate AtMostOnce(times: Times, fr: Frame, n: nat)
    requires n <= |fr.keys|
  {
    forall k | k in times :: Occurrences(fr, n, k) <= 1
  }

  /** Without repetition, the number of series is the number of channels. */
  lemma {:induction false} MembersAreSeen(times: Times, fr: Frame, n: nat)
    requires n <= |fr.keys| && AtMostOnce(times, fr, n)
    ensures Members(times, fr, n) == |Seen(times, fr, n)|
  {
    if n > 0 {
      var key := fr.keys[n - 1];
      forall k | k in times
        ensures Occurrences(fr, n - 1, k) <= 1
      {
        assert Occurrences(fr, n, k) <= 1;
      }
      MembersAreSeen(times, fr, n - 1);
      if key in times {
        assert Occurrences(fr, n, key) == 1;
        assert Seen(times, fr, n) == Seen(times, fr, n - 1) + {key};
      } else {
        assert Seen(times, fr, n) == Seen(times, fr, n - 1);
      }
    } else {
      assert Seen(times, fr, n) == {};
    }
  }

  lemma {:induction false} OccurrencesAreMembers(times: Times, fr: Frame, n: nat, k: ChannelKey)
    requires n <= |fr.keys| && k in times
    ensures Occurrences(fr, n, k) <= Members(times, fr, n)
    ensures times.Keys == {k} ==> Occurrences(fr, n, k) == Members(times, fr, n)
  {
    if n > 0 {
      OccurrencesAreMembers(times, fr, n - 1, k);
    }
  }

  lemma FullSubset(a: set<ChannelKey>, b: set<ChannelKey>)
    requires a <= b && |a| == |b|
    ensures a == b
  {
    assert b == a + (b - a);
    assert |b - a| == 0;
  }

  /** As many series as channels, none repeated: every channel is named exactly once, and conversely. */
  lemma CountingMeansOnce(times: Times, fr: Frame)
    requires WellFormed(fr)
    ensures ExactlyOnce(times, fr) <==> AtMostOnce(times, fr, |fr.keys|) && Members(times, fr, |fr.keys|) == |times|
  {
    var n := |fr.keys|;
    if AtMostOnce(times, fr, n) {
      MembersAreSeen(times, fr, n);
      if Members(times, fr, n) == |times| {
        FullSubset(Seen(times, fr, n), times.Keys);
      }
      if ExactlyOnce(times, fr) {
        assert Seen(times, fr, n) == times.Keys;
      }
    }
  }

  /** Every count is exactly one behind the calls. */
  predicate InSync(times: Times, calls: int) {
    forall k | k in times :: times[k] == calls - 1
  }

  /**
   While counts are in step with the calls, a frame is accepted exactly when its series for the group have the same length
   and it names no channel of the group, or every channel of the group exactly once.
   */
  lemma InSyncAcceptsIff(times: Times, calls: int, fr: Frame)
    requires WellFormed(fr) && InSync(times, calls)
    ensures Accepts(times, calls, fr) <==>
              SameLengths(times, fr) && (Members(times, fr, |fr.keys|) == 0 || ExactlyOnce(times, fr))
  {
    var n := |fr.keys|;
    AcceptsIff(times, calls, fr);
    CountingMeansOnce(times, fr);
    assert WithinLag(times, calls, fr, n) <==> AtMostOnce(times, fr, n);
    if Members(times, fr, n) == 0 {
      forall k | k in times
        ensures Occurrences(fr, n, k) == 0
      {
        OccurrencesAreMembers(times, fr, n, k);
      }
    }
  }

  // ----- Out of step -----

  function AllOnes(n: nat): seq<Series> {
    seq(n, _ => Series(1, true))
  }

  /** A frame of equal series for the given keys. */
  function Uniform(keys: seq<ChannelKey>): Frame {
    Frame(keys, AllOnes(|keys|))
  }

  lemma {:induction false} UniformScan(times: Times, keys: seq<ChannelKey>, n: nat)
    requires n <= |keys| && forall i | 0 <= i < |keys| :: keys[i] in times
    ensures Even(times, Uniform(keys), n) && Members(times, Uniform(keys), n) == n
    ensures FirstLength(times, Uniform(keys), n) == if n == 0 then -1 else 1
  {
    if n > 0 {
      UniformScan(times, keys, n - 1);
    }
  }

  lemma {:induction false} DistinctOccurrences(keys: seq<ChannelKey>, n: nat, k: ChannelKey)
    requires n <= |keys| && forall i, j | 0 <= i < j < |keys| :: keys[i] != keys[j]
    ensures Occurrences(Uniform(keys), n, k) == if k in keys[..n] then 1 else 0
  {
    if n > 0 {
      DistinctOccurrences(keys, n - 1, k);
      assert keys[..n] == keys[..n - 1] + [keys[n - 1]];
    }
  }

  lemma {:induction false} SuffixOccurrences(a: seq<ChannelKey>, b: seq<ChannelKey>, n: nat, k: ChannelKey)
    requires n <= |b|
    ensures Occurrences(Uniform(a + b), |a| + n, k) == Occurrences(Uniform(a), |a|, k) + Occurrences(Uniform(b), n, k)
  {
    if n > 0 {
      SuffixOccurrences(a, b, n - 1, k);
      assert (a + b)[|a| + n - 1] == b[n - 1];
    } else {
      PrefixOccurrences(a, b, |a|, k);
    }
  }

  lemma {:induction false} PrefixOccurrences(a: seq<ChannelKey>, b: seq<ChannelKey>, n: nat, k: ChannelKey)
    requires n <= |a|
    ensures Occurrences(Uniform(a + b), n, k) == Occurrences(Uniform(a), n, k)
  {
    if n > 0 {
      PrefixOccurrences(a, b, n - 1, k);
    }
  }

  lemma {:induction false} TwiceOccurrences(k: ChannelKey, rest: seq<ChannelKey>, j: ChannelKey)
    requires (forall a, b | 0 <= a < b < |rest| :: rest[a] != rest[b]) && k !in rest
    ensures Occurrences(Uniform([k, k] + rest), 2 + |rest|, j) == if j == k then 2 else if j in rest then 1 else 0
  {
    SuffixOccurrences([k, k], rest, |rest|, j);
    DistinctOccurrences(rest, |rest|, j);
    assert rest[..|rest|] == rest;
    assert Occurrences(Uniform([k, k]), 1, j) == if j == k then 1 else 0;
  }

  /** A group of two or more with a channel lagging by two accepts a frame naming that channel twice and another not at all. */
  lemma LagAcceptsDuplicate(times: Times, calls: int, k: ChannelKey) returns (fr: Frame)
    requires NotAhead(times, calls) && k in times && times[k] + 1 < calls && |times| >= 2
    ensures WellFormed(fr) && Accepts(times, calls, fr)
    ensures Members(times, fr, |fr.keys|) != 0 && !ExactlyOnce(times, fr)
  {
    var others := times.Keys - {k};
    assert |others| == |times| - 1;
    var dropped :| dropped in others;
    var rest := Enumerate(others - {dropped});
    fr := TwiceAccepted(times, calls, k, rest);
  }

  lemma TwiceAccepted(times: Times, calls: int, k: ChannelKey, rest: seq<ChannelKey>) returns (fr: Frame)
    requires NotAhead(times, calls) && k in times && times[k] + 1 < calls && 2 + |rest| == |times|
    requires forall a, b | 0 <= a < b < |rest| :: rest[a] != rest[b]
    requires k !in rest && forall j | j in rest :: j in times
    ensures WellFormed(fr) && Accepts(times, calls, fr)
    ensures Members(times, fr, |fr.keys|) != 0 && !ExactlyOnce(times, fr)
  {
    var keys := [k, k] + rest;
    fr := Uniform(keys);
    UniformScan(times, keys, |keys|);
    forall j | j in times
      ensures Occurrences(fr, |keys|, j) <= calls - times[j]
    {
      TwiceOccurrences(k, rest, j);
    }
    TwiceOccurrences(k, rest, k);
    AcceptsIff(times, calls, fr);
  }

  /**
   Validation guarantees that an accepted frame names no channel of the group or each exactly once precisely when the
   group has at most one channel or all counts are in step with the calls.
   */
  lemma DuplicatesCaughtIff(times: Times, calls: int)
    requires NotAhead(times, calls)
    ensures (forall fr | WellFormed(fr) && Accepts(times, calls, fr) :: Members(times, fr, |fr.keys|) == 0 || ExactlyOnce(times, fr))
            <==> |times| <= 1 || InSync(times, calls)
  {
    if InSync(times, calls) {
      forall fr | WellFormed(fr) && Accepts(times, calls, fr)
        ensures Members(times, fr, |fr.keys|) == 0 || ExactlyOnce(times, fr)
      {
        InSyncAcceptsIff(times, calls, fr);
      }
    } else if |times| <= 1 {
      forall fr | WellFormed(fr) && Accepts(times, calls, fr)
        ensures Members(times, fr, |fr.keys|) == 0 || ExactlyOnce(times, fr)
      {
        SingleChannelOnce(times, calls, fr);
      }
    } else {
      var k :| k in times && times[k] != calls - 1;
      var fr := LagAcceptsDuplicate(times, calls, k);
    }
  }

  lemma SingleChannelOnce(times: Times, calls: int, fr: Frame)
    requires NotAhead(times, calls) && |times| <= 1 && WellFormed(fr) && Accepts(times, calls, fr)
    ensures Members(times, fr, |fr.keys|) == 0 || ExactlyOnce(times, fr)
  {
    AcceptsIff(times, calls, fr);
    forall k | k in times
      ensures times.Keys == {k}
    {
      assert |times.Keys - {k}| == 0;
    }
    forall k | k in times
      ensures Occurrences(fr, |fr.keys|, k) == Members(times, fr, |fr.keys|)
    {
      OccurrencesAreMembers(times, fr, |fr.keys|, k);
    }
  }

  // ----- From opening on -----

  /** Counts after the frames written so far, each in its own call. */
  function TimesAfter(times: Times, frames: seq<Frame>): Times
    requires forall i | 0 <= i < |frames| :: WellFormed(frames[i])
  {
    if frames == [] then times
    else
      var n := |frames|;
      ScanTo(TimesAfter(times, frames[..n - 1]), n, frames[n - 1], |frames[n - 1].keys|).times
  }

  /** Every frame so far was accepted and named the group. */
  predicate AllNamed(times: Times, frames: seq<Frame>)
    requires forall i | 0 <= i < |frames| :: WellFormed(frames[i])
  {
    forall i | 0 <= i < |frames| ::
      var before := TimesAfter(times, frames[..i]);
      Accepts(before, i + 1, frames[i]) && Members(before, frames[i], |frames[i].keys|) != 0
  }

  /** An accepted frame that names the group keeps the counts in step. */
  lemma SyncStep(times: Times, calls: int, fr: Frame)
    requires WellFormed(fr) && InSync(times, calls) && Accepts(times, calls, fr) && Members(times, fr, |fr.keys|) != 0
    ensures InSync(ScanTo(times, calls, fr, |fr.keys|).times, calls + 1)
  {
    ScanMeaning(times, calls, fr, |fr.keys|);
    InSyncAcceptsIff(times, calls, fr);
  }

  lemma {:induction false} SyncFromOpen(times: Times, frames: seq<Frame>)
    requires forall i | 0 <= i < |frames| :: WellFormed(frames[i])
    requires (forall k | k in times :: times[k] == 0) && AllNamed(times, frames)
    ensures InSync(TimesAfter(times, frames), |frames| + 1)
  {
    if frames != [] {
      var front := frames[..|frames| - 1];
      assert forall i | 0 <= i < |front| :: front[i] == frames[i] && front[..i] == frames[..i];
      SyncFromOpen(times, front);
      SyncStep(TimesAfter(times, front), |frames|, frames[|frames| - 1]);
    }
  }

  /**
   From opening until the first frame that is rejected or skips the group, a frame is accepted exactly when its series
   have the same length and it names no channel of the group or each exactly once.
   */
  lemma NextFrameValidated(times: Times, frames: seq<Frame>, fr: Frame)
    requires forall i | 0 <= i < |frames| :: WellFormed(frames[i])
    requires (forall k | k in times :: times[k] == 0) && AllNamed(times, frames) && WellFormed(fr)
    ensures var now := TimesAfter(times, frames);
            Accepts(now, |frames| + 1, fr) <==>
              SameLengths(now, fr) && (Members(now, fr, |fr.keys|) == 0 || ExactlyOnce(now, fr))
  {
    SyncFromOpen(times, frames);
    InSyncAcceptsIff(TimesAfter(times, frames), |frames| + 1, fr);
  }

  /** Two calls from opening on: a frame that skips a group of two or more, and then one accepted with a channel twice. */
  lemma SkipThenDuplicate(times: Times) returns (skipping: Frame, fr: Frame)
    requires (forall k | k in times :: times[k] == 0) && |times| >= 2
    ensures WellFormed(skipping) && Accepts(times, 1, skipping)
    ensures var now := TimesAfter(times, [skipping]);
            WellFormed(fr) && Accepts(now, 2, fr) && Members(now, fr, |fr.keys|) != 0 && !ExactlyOnce(now, fr)
  {
    skipping := Frame([], []);
    assert [skipping][..0] == [];
    var k :| k in times;
    fr := LagAcceptsDuplicate(times, 2, k);
  }

  // ----- The writer -----

  class IdxWriter {
    var times: Times
    var numWriteCalls: nat

    ghost predicate Valid()
      reads this
    {
      NotAhead(times, numWriteCalls + 1)
    }

    constructor (channels: set<ChannelKey>)
      ensures Valid() && numWriteCalls == 0 && times == map k | k in channels :: 0
    {
      times := map k | k in channels :: 0;
      numWriteCalls := 0;
    }

    /** Counts the call, then scans the frame. */
    method ValidateWrite(fr: Frame) returns (ok: bool)
      requires Valid() && WellFormed(fr)
      modifies this
      ensures Valid() && numWriteCalls == old(numWriteCalls) + 1
      ensures ok == Accepts(old(times), numWriteCalls, fr)
      ensures times == ScanTo(old(times), numWriteCalls, fr, |fr.keys|).times
    {
      numWriteCalls := numWriteCalls + 1;
      ghost var before := times;
      var lengthOfFrame: int := -1;
      var count: nat := 0;
      for i := 0 to |fr.keys|
        invariant numWriteCalls == old(numWriteCalls) + 1
        invariant ScanTo(before, numWriteCalls, fr, i) == Scan(times, lengthOfFrame, count, true)
        invariant forall k | k in times :: times[k] <= numWriteCalls
      {
        ScanStops(before, numWriteCalls, fr, i + 1, |fr.keys|);
        var key, s := fr.keys[i], fr.series[i];
        if key in times {
          if lengthOfFrame == -1 {
            if !s.known {
              return false;
            }
            lengthOfFrame := s.length;
          }
          if times[key] == numWriteCalls {
            return false;
          }
          times := times[key := times[key] + 1];
          count := count + 1;
          if s.length != lengthOfFrame {
            return false;
          }
        }
      }
      KeysKept(before, numWriteCalls, fr, |fr.keys|);
      if count == 0 {
        return true;
      }
      return count == |times|;
    }
  }

  /** A scan that has failed stays as it is. */
  lemma {:induction false} ScanStops(times: Times, calls: int, fr: Frame, i: nat, n: nat)
    requires WellFormed(fr) && i <= n <= |fr.keys|
    ensures !ScanTo(times, calls, fr, i).ok ==> ScanTo(times, calls, fr, n) == ScanTo(times, calls, fr, i)
    decreases n
  {
    if i < n {
      ScanStops(times, calls, fr, i, n - 1);
    }
  }

  lemma {:induction false} KeysKept(times: Times, calls: int, fr: Frame, n: nat)
    requires WellFormed(fr) && n <= |fr.keys|
    ensures ScanTo(times, calls, fr, n).times.Keys == times.Keys && |ScanTo(times, calls, fr, n).times| == |times|
  {
    if n > 0 {
      KeysKept(times, calls, fr, n - 1);
    }
  }
}
