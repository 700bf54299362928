/**
 * The client's calls on one stream. Any number of threads call; one thread handles what the completion
 * queue delivers. A handler touches state shared with callers only where it takes a queued call, under
 * the lock, so each handler is one step; a caller takes two, since it releases the lock in between.
 */
module Client {
  import opened SportsLines

  datatype Tag = Start | Read | Write | Complete

  /** The last five fields are history or the environment: callers between their two steps, and what happened. */
  datatype State = State(
    calls: seq<Request>, started: bool, outstand: bool, request: Request, pending: seq<Tag>,
    calling: nat, all: seq<Request>, written: seq<Request>, failed: bool, completed: bool)

  datatype Action = Enqueue(r: Request) | Exchange | Deliver(ok: bool)

  function Init(): State { State([], false, false, Request(0, []), [], 0, [], [], false, false) }

  /** Takes the oldest queued call, unless a write is under way. */
  function MakeRequest(s: State): (State, bool)
  {
    if s.outstand || s.calls == [] then (s, false)
    else (s.(request := s.calls[0], calls := s.calls[1..], outstand := true), true)
  }

  function WriteRequest(s: State): State { s.(pending := s.pending + [Write], written := s.written + [s.request]) }

  function Finish(s: State): State { s.(pending := s.pending + [Complete], failed := true) }

  function OnStart(s: State, ok: bool): State
  {
    if !ok then Finish(s) else
      var (t, made) := MakeRequest(s);
      if made then WriteRequest(t) else t
  }

  function OnRead(s: State, ok: bool): State
  {
    if !ok then Finish(s) else
      var (t, made) := MakeRequest(s);
      if made then WriteRequest(t) else t.(pending := t.pending + [Read])
  }

  function OnWrite(s: State, ok: bool): State
  {
    if !ok then Finish(s) else s.(outstand := false, pending := s.pending + [Read])
  }

  function OnComplete(s: State): State { s.(completed := true) }

  predicate Enabled(a: Action, s: State)
  {
    match a
    case Enqueue(r) => true
    case Exchange => s.calling > 0
    case Deliver(ok) => s.pending != []
  }

  /** Exchange is the compare-exchange on the started flag; only the first one starts the stream. */
  function Apply(a: Action, s: State): State
    requires Enabled(a, s)
  {
    match a
    case Enqueue(r) => s.(calls := s.calls + [r], all := s.all + [r], calling := s.calling + 1)
    case Exchange =>
      var t := s.(calling := s.calling - 1);
      if t.started then t else t.(started := true, pending := t.pending + [Start])
    case Deliver(ok) =>
      var t := s.(pending := s.pending[1..]);
      match s.pending[0]
      case Start => OnStart(t, ok)
      case Read => OnRead(t, ok)
      case Write => OnWrite(t, ok)
      case Complete => OnComplete(t)
  }

  /** One operation is under way from the first call to the end; requests go out once each and in order. */
  predicate Inv(s: State)
  {
    && s.written + s.calls == s.all
    && |s.pending| == (if s.started && !s.completed then 1 else 0)
    && (!s.started ==> s.calling == |s.calls| && s.written == [] && !s.outstand && !s.failed && !s.completed)
    && (s.pending == [Start] ==> s.calls != [] && s.written == [] && !s.outstand)
    && (s.failed <==> s.pending == [Complete] || s.completed)
    && (!s.failed ==> (s.outstand <==> s.pending == [Write]))
    && (s.pending == [Write] ==> s.written != [] && s.request == s.written[|s.written| - 1])
  }

  lemma StepKeepsInv(s: State, a: Action)
    requires Inv(s) && Enabled(a, s)
    ensures Inv(Apply(a, s))
    ensures a.Deliver? && s.pending[0] == Start && a.ok ==> Apply(a, s).pending == [Write]
  {
    match a
    case Enqueue(r) => assert s.written + (s.calls + [r]) == (s.written + s.calls) + [r];
    case Exchange => assert !s.started ==> s.pending + [Start] == [Start] && [Start][0] != [Complete][0];
    case Deliver(ok) =>
      match s.pending[0] {
        case Start => StartKeepsInv(s, ok);
        case Read => ReadKeepsInv(s, ok);
        case Write => WriteKeepsInv(s, ok);
        case Complete => assert s.pending == [Complete];
      }
  }

  lemma StartKeepsInv(s: State, ok: bool)
    requires Inv(s) && s.pending != [] && s.pending[0] == Start
    ensures Inv(Apply(Deliver(ok), s)) && (ok ==> Apply(Deliver(ok), s).pending == [Write])
  {
    OnlyPending(s, Start);
    Alone(Start);
    FirstCall(s.written, s.calls);
    Alone(if ok then Write else Complete);
  }

  lemma ReadKeepsInv(s: State, ok: bool)
    requires Inv(s) && s.pending != [] && s.pending[0] == Read
    ensures Inv(Apply(Deliver(ok), s))
  {
    OnlyPending(s, Read);
    Alone(Read);
    FirstCall(s.written, s.calls);
    Alone(if !ok then Complete else if s.outstand || s.calls == [] then Read else Write);
  }

  lemma WriteKeepsInv(s: State, ok: bool)
    requires Inv(s) && s.pending != [] && s.pending[0] == Write
    ensures Inv(Apply(Deliver(ok), s))
  {
    OnlyPending(s, Write);
    Alone(Write);
    Alone(if ok then Read else Complete);
  }

  lemma OnlyPending(s: State, tag: Tag)
    requires |s.pending| == 1 && s.pending[0] == tag
    ensures s.pending == [tag] && s.pending[1..] == []
  {
  }

  lemma Alone(tag: Tag)
    ensures [] + [tag] == [tag]
    ensures [tag] == [Start] <==> tag == Start
    ensures [tag] == [Write] <==> tag == Write
    ensures [tag] == [Complete] <==> tag == Complete
  {
    assert [tag][0] == tag;
  }

  lemma FirstCall(written: seq<Request>, calls: seq<Request>)
    ensures calls != [] ==> written + calls == (written + [calls[0]]) + calls[1..]
  {
  }

  predicate Run(s: State, steps: seq<Action>, t: State)
    decreases |steps|
  {
    if steps == [] then t == s else Enabled(steps[0], s) && Run(Apply(steps[0], s), steps[1..], t)
  }

  /** Over every run, whoever calls and whatever the queue delivers. */
  lemma {:induction false} RunKeepsInv(s: State, steps: seq<Action>, t: State)
    requires Inv(s) && Run(s, steps, t)
    ensures Inv(t) && s.all <= t.all && s.written <= t.written
    decreases |steps|
  {
    if steps != [] {
      StepKeepsInv(s, steps[0]);
      HistoriesGrow(s, steps[0]);
      RunKeepsInv(Apply(steps[0], s), steps[1..], t);
    }
  }

  lemma HistoriesGrow(s: State, a: Action)
    requires Enabled(a, s)
    ensures s.all <= Apply(a, s).all && s.written <= Apply(a, s).written
  {
    match a
    case Enqueue(r) =>
    case Exchange =>
    case Deliver(ok) => DeliveryGrows(s, ok);
  }

  lemma DeliveryGrows(s: State, ok: bool)
    requires s.pending != []
    ensures var t := Apply(Deliver(ok), s);
            t.all == s.all && (t.written == s.written || t.written == s.written + [t.request])
  {
    match s.pending[0]
    case Start => RequestGrows(s.(pending := s.pending[1..]));
    case Read => RequestGrows(s.(pending := s.pending[1..]));
    case Write =>
    case Complete =>
  }

  lemma RequestGrows(s: State)
    ensures var t := WriteRequest(MakeRequest(s).0);
            t.all == s.all && t.written == s.written + [t.request] && MakeRequest(s).0.written == s.written
  {
  }

  /** The requests called with, in order. */
  function Called(steps: seq<Action>): seq<Request>
  {
    if steps == [] then [] else (if steps[0].Enqueue? then [steps[0].r] else []) + Called(steps[1..])
  }

  /** How many callers are between their two steps. */
  function InBetween(steps: seq<Action>): int
  {
    if steps == [] then 0
    else (if steps[0].Enqueue? then 1 else if steps[0].Exchange? then -1 else 0) + InBetween(steps[1..])
  }

  lemma {:induction false} RunCalls(s: State, steps: seq<Action>, t: State)
    requires Run(s, steps, t)
    ensures t.all == s.all + Called(steps) && t.calling == s.calling + InBetween(steps)
    decreases |steps|
  {
    if steps != [] {
      StepCalls(s, steps[0]);
      RunCalls(Apply(steps[0], s), steps[1..], t);
    }
  }

  lemma StepCalls(s: State, a: Action)
    requires Enabled(a, s)
    ensures Apply(a, s).all == s.all + if a.Enqueue? then [a.r] else []
    ensures Apply(a, s).calling == s.calling + if a.Enqueue? then 1 else if a.Exchange? then -1 else 0
  {
    match a
    case Enqueue(r) =>
    case Exchange =>
    case Deliver(ok) =>
      DeliveryGrows(s, ok);
      DeliveryCalls(s, ok);
  }

  lemma DeliveryCalls(s: State, ok: bool)
    requires s.pending != []
    ensures Apply(Deliver(ok), s).calling == s.calling
  {
    match s.pending[0]
    case Start =>
    case Read =>
    case Write =>
    case Complete =>
  }

  /** From the start: what was written is the beginning of all calls, and one operation is pending until the end. */
  lemma ClientRuns(steps: seq<Action>, t: State)
    requires Run(Init(), steps, t)
    ensures t.written + t.calls == Called(steps) && t.calling == InBetween(steps)
    ensures t.started && !t.completed ==> |t.pending| == 1
    ensures t.pending == [Start] ==> t.calls != []
    ensures !t.failed ==> (t.outstand <==> t.pending == [Write])
  {
    RunKeepsInv(Init(), steps, t);
    RunCalls(Init(), steps, t);
  }

  /** A start, a read or a write comes back as failed. */
  predicate Breaks(a: Action, s: State) { a == Deliver(false) && s.pending != [] && s.pending[0] != Complete }

  /** Then the call is finished: only the complete tag is awaited, and nothing is taken or written. */
  lemma BrokenCallFinishes(s: State)
    requires Inv(s) && Breaks(Deliver(false), s)
    ensures var t := Apply(Deliver(false), s);
            t.pending == [Complete] && t.failed && t.written == s.written && t.calls == s.calls
  {
    OnlyPending(s, s.pending[0]);
    Alone(Complete);
  }

  /** No other step fails a call, and only the complete tag completes it. */
  lemma EndsExactly(s: State, a: Action)
    requires Inv(s) && Enabled(a, s)
    ensures Apply(a, s).failed <==> s.failed || Breaks(a, s)
    ensures Apply(a, s).completed <==> s.completed || (a.Deliver? && s.pending[0] == Complete)
  {
    match a
    case Enqueue(r) =>
    case Exchange =>
    case Deliver(ok) => DeliveryEnds(s, ok);
  }

  lemma DeliveryEnds(s: State, ok: bool)
    requires s.pending != []
    ensures var t := Apply(Deliver(ok), s);
            && (t.failed <==> s.failed || (!ok && s.pending[0] != Complete))
            && (t.completed <==> s.completed || s.pending[0] == Complete)
  {
  }

  predicate SomeBreak(s: State, steps: seq<Action>)
    decreases |steps|
  {
    && steps != [] && Enabled(steps[0], s)
    && (Breaks(steps[0], s) || SomeBreak(Apply(steps[0], s), steps[1..]))
  }

  lemma {:induction false} RunFails(s: State, steps: seq<Action>, t: State)
    requires Inv(s) && Run(s, steps, t)
    ensures t.failed <==> s.failed || SomeBreak(s, steps)
    decreases |steps|
  {
    if steps != [] {
      StepKeepsInv(s, steps[0]);
      EndsExactly(s, steps[0]);
      RunFails(Apply(steps[0], s), steps[1..], t);
    }
  }

  /** Over every run: the call has failed exactly if some start, read or write came back as failed. */
  lemma FailedIff(steps: seq<Action>, t: State)
    requires Run(Init(), steps, t)
    ensures t.failed <==> SomeBreak(Init(), steps)
  {
    RunFails(Init(), steps, t);
  }

  /** After a failure nothing more is written, whatever comes: the call waits for its completion or has it. */
  lemma {:induction false} NothingAfterFailure(s: State, steps: seq<Action>, t: State)
    requires Inv(s) && s.failed && Run(s, steps, t)
    ensures t.failed && t.written == s.written && s.calls <= t.calls
    ensures if t.completed then t.pending == [] else t.pending == [Complete]
    decreases |steps|
  {
    if steps != [] {
      StepKeepsInv(s, steps[0]);
      FailedStep(s, steps[0]);
      NothingAfterFailure(Apply(steps[0], s), steps[1..], t);
    }
  }

  lemma FailedStep(s: State, a: Action)
    requires Inv(s) && s.failed && Enabled(a, s)
    ensures var t := Apply(a, s); t.failed && t.written == s.written && s.calls <= t.calls
  {
    if a.Deliver? { OnlyPending(s, Complete); }
  }

  /** A read comes back with a response. */
  predicate Answers(a: Action, s: State) { a == Deliver(true) && s.pending != [] && s.pending[0] == Read }

  function Answered(s: State, steps: seq<Action>): nat
    decreases |steps|
  {
    if steps == [] || !Enabled(steps[0], s) then 0
    else (if Answers(steps[0], s) then 1 else 0) + Answered(Apply(steps[0], s), steps[1..])
  }

  /** How many requests may still be written before the next response. */
  function Allowed(s: State): nat { if s.pending == [Read] || s.pending == [Write] || s.failed then 0 else 1 }

  lemma WritesNeedAnswers(s: State, a: Action)
    requires Inv(s) && Enabled(a, s)
    ensures |Apply(a, s).written| + Allowed(Apply(a, s)) <= |s.written| + Allowed(s) + if Answers(a, s) then 1 else 0
  {
    match a
    case Enqueue(r) =>
    case Exchange => if s.started { assert Apply(a, s).pending == s.pending; }
    case Deliver(ok) =>
      OnlyPending(s, s.pending[0]);
      StepKeepsInv(s, a);
      DeliveryGrows(s, ok);
  }

  lemma {:induction false} RunNeedsAnswers(s: State, steps: seq<Action>, t: State)
    requires Inv(s) && Run(s, steps, t)
    ensures |t.written| + Allowed(t) <= |s.written| + Allowed(s) + Answered(s, steps)
    decreases |steps|
  {
    if steps != [] {
      StepKeepsInv(s, steps[0]);
      WritesNeedAnswers(s, steps[0]);
      RunNeedsAnswers(Apply(steps[0], s), steps[1..], t);
    }
  }

  /** Over every run: after the first request, each takes a response of its own before it is written. */
  lemma OneRequestPerAnswer(steps: seq<Action>, t: State)
    requires Run(Init(), steps, t)
    ensures |t.written| <= 1 + Answered(Init(), steps)
  {
    RunNeedsAnswers(Init(), steps, t);
  }

  /** How many deliveries it takes until the first k queued calls are written. */
  function Needed(s: State, k: nat): nat
  {
    if k == 0 then 0 else if s.pending == [Write] then 2 * k else 2 * k - 1
  }

  predicate AllSucceed(steps: seq<Action>) { forall i :: 0 <= i < |steps| && steps[i].Deliver? ==> steps[i].ok }

  function Deliveries(steps: seq<Action>): nat
  {
    if steps == [] then 0 else (if steps[0].Deliver? then 1 else 0) + Deliveries(steps[1..])
  }

  /**
   * While operations succeed the first k queued calls are written within 2k deliveries, or one fewer if no write
   * is pending, however many calls come in between.
   */
  lemma {:induction false} QueuedCallsAreWritten(s: State, steps: seq<Action>, t: State, k: nat)
    requires Inv(s) && s.started && !s.failed && k <= |s.calls|
    requires Run(s, steps, t) && AllSucceed(steps) && Deliveries(steps) >= Needed(s, k)
    ensures s.written + s.calls[..k] <= t.written && !t.failed
    decreases |steps|
  {
    if steps == [] {
      assert s.calls[..0] == [];
    } else {
      var a := steps[0];
      var next := Apply(a, s);
      StepKeepsInv(s, a);
      assert a.Deliver? ==> a.ok;
      assert forall i :: 0 <= i < |steps[1..]| ==> steps[1..][i] == steps[i + 1];
      var more := OneStepOn(s, a, k);
      QueuedCallsAreWritten(next, steps[1..], t, more);
    }
  }

  /** One step on, the calls still to be written are k or one fewer, and a delivery brings them nearer. */
  lemma OneStepOn(s: State, a: Action, k: nat) returns (more: nat)
    requires Inv(s) && s.started && !s.failed && k <= |s.calls| && Enabled(a, s) && (a.Deliver? ==> a.ok)
    ensures var next := Apply(a, s);
            && next.started && !next.failed && more <= |next.calls|
            && s.written + s.calls[..k] <= next.written + next.calls[..more]
            && Needed(next, more) <= if a.Deliver? && Needed(s, k) > 0 then Needed(s, k) - 1 else Needed(s, k)
  {
    var next := Apply(a, s);
    more := k;
    if a.Deliver? {
      SuccessfulDelivery(s);
      if s.pending != [Write] && s.calls != [] {
        more := if k > 0 then k - 1 else 0;
        OneWritten(s.written, s.calls, k);
      }
    } else {
      assert next.calls[..k] == s.calls[..k];
    }
  }

  /** A write is followed by a read; anything else by a write, if a call is queued, or again by a read. */
  lemma SuccessfulDelivery(s: State)
    requires Inv(s) && s.started && !s.failed
    ensures s.pending != []
    ensures var next := Apply(Deliver(true), s);
            && next.started && !next.failed
            && (if s.pending == [Write] || s.calls == [] then
                  next.calls == s.calls && next.written == s.written && next.pending == [Read]
                else
                  next.calls == s.calls[1..] && next.written == s.written + [s.calls[0]] && next.pending == [Write])
  {
    assert s.pending == [s.pending[0]];
  }

  lemma OneWritten(written: seq<Request>, calls: seq<Request>, k: nat)
    requires calls != [] && k <= |calls|
    ensures written + calls[..k] <= written + [calls[0]] + calls[1..][..if k > 0 then k - 1 else 0]
  {
    if k > 0 {
      assert calls[..k] == [calls[0]] + calls[1..][..k - 1];
    }
  }

  class StreamClient {
    var calls: seq<Request>
    var started: bool
    var outstand: bool
    var request: Request
    var pending: seq<Tag>
    ghost var calling: nat
    ghost var all: seq<Request>
    ghost var written: seq<Request>
    ghost var failed: bool
    ghost var completed: bool

    ghost function Value(): State
      reads this
    {
      State(calls, started, outstand, request, pending, calling, all, written, failed, completed)
    }

    constructor ()
      ensures Value() == Init() && Inv(Value())
    {
      calls, started, outstand, request, pending := [], false, false, Request(0, []), [];
      calling, all, written, failed, completed := 0, [], [], false, false;
    }

    /** The first half of a call, under the lock. */
    method EnqueueCall(period: nat, sports: seq<string>)
      requires Inv(Value())
      modifies this
      ensures Value() == Apply(Enqueue(Request(period, sports)), old(Value())) && Inv(Value())
    {
      StepKeepsInv(Value(), Enqueue(Request(period, sports)));
      calls := calls + [Request(period, sports)];
      all, calling := all + [Request(period, sports)], calling + 1;
    }

    /** The second half: only the first caller starts the stream. */
    method StartOnce()
      requires Inv(Value()) && calling > 0
      modifies this
      ensures Value() == Apply(Exchange, old(Value())) && Inv(Value())
    {
      StepKeepsInv(Value(), Exchange);
      var expected := started == false;
      if expected {
        started := true;
        pending := pending + [Start];
      }
      calling := calling - 1;
    }

    method MakeOneRequest() returns (made: bool)
      modifies this`calls, this`request, this`outstand
      ensures (Value(), made) == MakeRequest(old(Value()))
    {
      if outstand { return false; }
      if calls != [] {
        request := calls[0];
        calls := calls[1..];
        outstand := true;
        return true;
      }
      return false;
    }

    method SendRequest()
      modifies this`pending, this`written
      ensures Value() == WriteRequest(old(Value()))
    {
      pending := pending + [Write];
      written := written + [request];
    }

    method FinishCall()
      modifies this`pending, this`failed
      ensures Value() == Finish(old(Value()))
    {
      pending := pending + [Complete];
      failed := true;
    }

    method HandleStart(ok: bool) returns (r: bool)
      modifies this
      ensures Value() == OnStart(old(Value()), ok) && r == ok
    {
      if !ok {
        FinishCall();
        return false;
      }
      var made := MakeOneRequest();
      if made { SendRequest(); }
      return true;
    }

    method HandleRead(ok: bool) returns (r: bool)
      modifies this
      ensures Value() == OnRead(old(Value()), ok) && r == ok
    {
      if !ok {
        FinishCall();
        return false;
      }
      var made := MakeOneRequest();
      if made {
        SendRequest();
      } else {
        pending := pending + [Read];
      }
      return true;
    }

    method HandleWrite(ok: bool) returns (r: bool)
      modifies this
      ensures Value() == OnWrite(old(Value()), ok) && r == ok
    {
      if !ok {
        FinishCall();
        return false;
      }
      outstand := false;
      pending := pending + [Read];
      return true;
    }

    /** One round of the handler thread. */
    method Process(ok: bool)
      requires Inv(Value()) && pending != []
      modifies this
      ensures Value() == Apply(Deliver(ok), old(Value())) && Inv(Value())
    {
      StepKeepsInv(Value(), Deliver(ok));
      var tag := pending[0];
      pending := pending[1..];
      assert Value() == old(Value()).(pending := pending);
      match tag {
        case Start => var r := HandleStart(ok);
        case Read => var r := HandleRead(ok);
        case Write => var r := HandleWrite(ok);
        case Complete => completed := true;
      }
    }
  }
}
