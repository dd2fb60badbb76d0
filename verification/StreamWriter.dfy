/**
 The request loop of a stream writer (cesium/writer_stream.go:94-228).

 What a write, a commit or a change of authority does to the channels is left to their writers;
 here each comes with its outcome.
 */
module StreamWriter {
  import opened Common

  const WRITE := 1
  const COMMIT := 2
  const ERROR := 3
  const SET_AUTHORITY := 4

  type Error = string

  /** A request, and how the work it asks for turns out if it is done. */
  datatype Request = Request(command: nat, outcome: Option<Error>, end: int)

  datatype Response = Response(command: nat, ack: bool, seqNum: nat, err: Option<Error>, end: int)

  /** What the writer does, apart from answering. */
  datatype Event = Wrote(err: Option<Error>) | Committed(err: Option<Error>) | AuthoritySet(err: Option<Error>) | Cleared

  datatype Writer = Writer(seqNum: nat, err: Option<Error>, out: seq<Response>, events: seq<Event>)

  const OPENED := Writer(0, None, [], [])

  /** Counts and sends one response. */
  function Respond(w: Writer, req: Request, ack: bool, err: Option<Error>, end: int): Writer {
    w.(seqNum := w.seqNum + 1, out := w.out + [Response(req.command, ack, w.seqNum + 1, err, end)])
  }

  function Log(w: Writer, e: Event): Writer {
    w.(events := w.events + [e])
  }

  /** `process`. */
  function Process(w: Writer, req: Request): Writer {
    if req.command < WRITE || req.command > SET_AUTHORITY then
      w
    else if req.command == ERROR then
      Log(Respond(w, req, false, w.err, 0).(err := None), Cleared)
    else if req.command == SET_AUTHORITY then
      // A failed control update is kept as the error, but the request is acknowledged.
      Log(Respond(w, req, true, None, 0).(err := if req.outcome.Some? then req.outcome else w.err), AuthoritySet(req.outcome))
    else if w.err.Some? then
      Respond(w, req, false, None, 0)
    else if req.command == COMMIT then
      Log(Respond(w, req, req.outcome.None?, None, req.end).(err := req.outcome), Committed(req.outcome))
    else if req.outcome.Some? then
      Log(Respond(w, req, false, None, 0).(err := req.outcome), Wrote(req.outcome))
    else
      Log(w, Wrote(None))
  }

  function Run(reqs: seq<Request>): Writer {
    if reqs == [] then OPENED else Process(Run(reqs[..|reqs| - 1]), reqs[|reqs| - 1])
  }

  // ----- What every run keeps -----

  /** Sequence numbers count the responses. */
  predicate Numbered(w: Writer) {
    w.seqNum == |w.out| && forall i | 0 <= i < |w.out| :: w.out[i].seqNum == i + 1
  }

  predicate Failed(e: Event) {
    !e.Cleared? && e.err.Some?
  }

  /** Some failure has not been cleared since. */
  predicate Unresolved(events: seq<Event>, upTo: nat)
    requires upTo <= |events|
  {
    exists i | 0 <= i < upTo :: Failed(events[i]) && forall j | i < j < upTo :: events[j] != Cleared
  }

  /** The error kept is the unresolved one, and no write or commit was done while one was unresolved. */
  predicate Guarded(w: Writer) {
    && (w.err.Some? <==> Unresolved(w.events, |w.events|))
    && forall i | 0 <= i < |w.events| && (w.events[i].Wrote? || w.events[i].Committed?) :: !Unresolved(w.events, i)
  }

  lemma UnresolvedPrefix(events: seq<Event>, e: Event, n: nat)
    requires n <= |events|
    ensures Unresolved(events + [e], n) <==> Unresolved(events, n)
  {
    var all := events + [e];
    assert forall i | 0 <= i < |events| :: all[i] == events[i];
  }

  lemma UnresolvedSnoc(events: seq<Event>, e: Event)
    ensures Unresolved(events + [e], |events| + 1) <==> Failed(e) || (e != Cleared && Unresolved(events, |events|))
  {
    var all, n := events + [e], |events|;
    assert forall i | 0 <= i < n :: all[i] == events[i];
    assert all[n] == e;
    if Failed(e) {
      assert Failed(all[n]);
    } else if e != Cleared && Unresolved(events, n) {
      var i :| 0 <= i < n && Failed(events[i]) && forall j | i < j < n :: events[j] != Cleared;
      assert Failed(all[i]);
    }
  }

  lemma ProcessKeeps(w: Writer, req: Request)
    requires Numbered(w) && Guarded(w)
    ensures Numbered(Process(w, req)) && Guarded(Process(w, req))
  {
    var w' := Process(w, req);
    if |w'.events| > |w.events| {
      var e := w'.events[|w.events|];
      assert w'.events == w.events + [e];
      UnresolvedSnoc(w.events, e);
      forall i | 0 <= i < |w'.events| && (w'.events[i].Wrote? || w'.events[i].Committed?)
        ensures !Unresolved(w'.events, i)
      {
        UnresolvedPrefix(w.events, e, i);
      }
    }
  }

  /**
   Over every sequence of requests: responses carry the numbers 1, 2, 3, ... in order, and after a write, commit or
   change of authority fails no write or commit is done until an Error request has been answered.
   */
  lemma {:induction false} RunKeeps(reqs: seq<Request>)
    ensures Numbered(Run(reqs)) && Guarded(Run(reqs))
  {
    if reqs != [] {
      RunKeeps(reqs[..|reqs| - 1]);
      ProcessKeeps(Run(reqs[..|reqs| - 1]), reqs[|reqs| - 1]);
    }
  }

  // ----- What is answered -----

  /** The error of the last failure, unless it has been cleared since. */
  function LastError(events: seq<Event>): Option<Error> {
    if events == [] || events[|events| - 1] == Cleared then None
    else if Failed(events[|events| - 1]) then events[|events| - 1].err
    else LastError(events[..|events| - 1])
  }

  lemma ProcessKeepsLastError(w: Writer, req: Request)
    requires w.err == LastError(w.events)
    ensures Process(w, req).err == LastError(Process(w, req).events)
  {
    var w' := Process(w, req);
    if |w'.events| > |w.events| {
      assert w'.events[..|w'.events| - 1] == w.events;
    }
  }

  lemma {:induction false} RunKeepsLastError(reqs: seq<Request>)
    ensures Run(reqs).err == LastError(Run(reqs).events)
  {
    if reqs != [] {
      RunKeepsLastError(reqs[..|reqs| - 1]);
      ProcessKeepsLastError(Run(reqs[..|reqs| - 1]), reqs[|reqs| - 1]);
    }
  }

  /** A request whose work fails if it is done. */
  predicate Failing(req: Request) {
    (req.command == WRITE || req.command == COMMIT || req.command == SET_AUTHORITY) && req.outcome.Some?
  }

  /** Every failing request has been followed by an Error request. */
  predicate Clean(reqs: seq<Request>) {
    forall j | 0 <= j < |reqs| && Failing(reqs[j]) :: exists k | j < k < |reqs| :: reqs[k].command == ERROR
  }

  lemma CleanSnoc(reqs: seq<Request>, req: Request)
    ensures Clean(reqs + [req]) <==> !Failing(req) && (req.command == ERROR || Clean(reqs))
  {
    var all, n := reqs + [req], |reqs|;
    assert all[n] == req && forall j | 0 <= j < n :: all[j] == reqs[j];
    if Clean(all) && req.command != ERROR {
      forall j | 0 <= j < n && Failing(reqs[j])
        ensures exists k | j < k < n :: reqs[k].command == ERROR
      {
        assert Failing(all[j]);
        var k :| j < k < |all| && all[k].command == ERROR;
        assert reqs[k].command == ERROR;
      }
    } else if !Failing(req) && req.command != ERROR && Clean(reqs) {
      forall j | 0 <= j < |all| && Failing(all[j])
        ensures exists k | j < k < |all| :: all[k].command == ERROR
      {
        assert Failing(reqs[j]);
        var k :| j < k < n && reqs[k].command == ERROR;
        assert all[k].command == ERROR;
      }
    }
  }

  /** An error is kept exactly while some failing request has not been followed by an Error request. */
  lemma {:induction false} KeptUntilCleared(reqs: seq<Request>)
    ensures Run(reqs).err.None? <==> Clean(reqs)
  {
    if reqs != [] {
      var front, req := reqs[..|reqs| - 1], reqs[|reqs| - 1];
      KeptUntilCleared(front);
      CleanSnoc(front, req);
      assert reqs == front + [req];
    }
  }

  /** One more request is answered, last of all. */
  predicate Answers(w: Writer, w': Writer, command: nat, ack: bool, err: Option<Error>, end: int) {
    |w'.out| == |w.out| + 1 && w.out <= w'.out && w'.out[|w.out|] == Response(command, ack, |w'.out|, err, end)
  }

  /**
   A commit is done exactly when no failure is unresolved, and acknowledged exactly when it is done without error; the
   response carries its end exactly when it is done.
   */
  lemma CommitAcknowledgedIff(reqs: seq<Request>, req: Request)
    requires req.command == COMMIT
    ensures var w, w' := Run(reqs), Run(reqs + [req]);
            && Answers(w, w', COMMIT, Clean(reqs) && req.outcome.None?, None, if Clean(reqs) then req.end else 0)
            && w'.events == w.events + if Clean(reqs) then [Committed(req.outcome)] else []
  {
    assert (reqs + [req])[..|reqs|] == reqs;
    KeptUntilCleared(reqs);
    RunKeeps(reqs);
  }

  /** So is a write, which is answered only when it is not done or fails, and never acknowledged. */
  lemma WriteAnsweredIff(reqs: seq<Request>, req: Request)
    requires req.command == WRITE
    ensures var w, w' := Run(reqs), Run(reqs + [req]);
            && w'.events == w.events + (if Clean(reqs) then [Wrote(req.outcome)] else [])
            && if Clean(reqs) && req.outcome.None? then w'.out == w.out else Answers(w, w', WRITE, false, None, 0)
  {
    assert (reqs + [req])[..|reqs|] == reqs;
    KeptUntilCleared(reqs);
    RunKeeps(reqs);
  }

  /** An Error request is answered with the unresolved error, which it clears; one for authority is always acknowledged. */
  lemma ErrorAnswered(reqs: seq<Request>, req: Request)
    requires req.command == ERROR || req.command == SET_AUTHORITY
    ensures var w, w' := Run(reqs), Run(reqs + [req]);
            if req.command == ERROR then Answers(w, w', ERROR, false, LastError(w.events), 0) && LastError(w'.events).None?
            else Answers(w, w', SET_AUTHORITY, true, None, 0) && w'.events == w.events + [AuthoritySet(req.outcome)]
  {
    assert (reqs + [req])[..|reqs|] == reqs;
    RunKeepsLastError(reqs);
    RunKeeps(reqs);
  }

  class LiveWriter {
    var seqNum: nat
    var err: Option<Error>
    var out: seq<Response>
    ghost var events: seq<Event>

    ghost function View(): Writer
      reads this
    {
      Writer(seqNum, err, out, events)
    }

    constructor ()
      ensures View() == OPENED
    {
      seqNum, err, out, events := 0, None, [], [];
    }

    method SendRes(req: Request, ack: bool, e: Option<Error>, end: int)
      modifies this`out
      ensures out == old(out) + [Response(req.command, ack, seqNum, e, end)]
    {
      out := out + [Response(req.command, ack, seqNum, e, end)];
    }

    method ProcessRequest(req: Request)
      modifies this
      ensures View() == Process(old(View()), req)
    {
      if req.command < WRITE || req.command > SET_AUTHORITY {
        return;
      }
      if req.command == ERROR {
        seqNum := seqNum + 1;
        SendRes(req, false, err, 0);
        err := None;
        events := events + [Cleared];
        return;
      }
      if req.command == SET_AUTHORITY {
        seqNum := seqNum + 1;
        if req.outcome.Some? {
          err := req.outcome;
        }
        events := events + [AuthoritySet(req.outcome)];
        SendRes(req, true, None, 0);
        return;
      }
      if err.Some? {
        seqNum := seqNum + 1;
        SendRes(req, false, None, 0);
        return;
      }
      if req.command == COMMIT {
        seqNum := seqNum + 1;
        err := req.outcome;
        events := events + [Committed(req.outcome)];
        SendRes(req, err.None?, None, req.end);
      } else {
        err := req.outcome;
        events := events + [Wrote(req.outcome)];
        if err.Some? {
          seqNum := seqNum + 1;
          SendRes(req, false, None, 0);
        }
      }
    }
  }
}
