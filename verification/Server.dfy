/**
 * The server's handshake: one thread reads requests and flags a change, another takes snapshots of the last
 * accepted request and serves scores. Each step below touches shared state once.
 */
module Server {
  import opened SportsLines

  const DEFAULT: Request := Request(0, [])

  /** What makes a request worth accepting: the period, or how many sports there are. */
  predicate Differs(last: Request, r: Request) { last.period != r.period || |last.sports| != |r.sports| }

  datatype Owner = Nobody | ByReader | ByWriter

  datatype Reader =
    | Idle
    | Received(r: Request)
    | Checking(r: Request)
    | StoringPeriod(r: Request)
    | StoringSports(r: Request)
    | Flagging
    | Notifying

  datatype Writer =
    | Waiting
    | FallingAsleep
    | Asleep
    | Swapping
    | Clearing
    | Locking
    | CopyingPeriod
    | CopyingSports
    | Using(changed: bool)

  /** A snapshot that was served; the index of its request among those accepted is history. */
  datatype Use = Use(snapshot: Request, changed: bool, index: nat)

  /** The last three fields are history; `accepted` begins with the default request. */
  datatype State = State(
    last: Request, changed: bool, lock: Owner, reader: Reader, writer: Writer, snapshot: Request,
    accepted: seq<Request>, index: nat, uses: seq<Use>)

  function Init(): State { State(DEFAULT, false, Nobody, Idle, Waiting, DEFAULT, [DEFAULT], 0, []) }

  datatype Action = Receive(r: Request) | Read | Write

  predicate Enabled(a: Action, s: State)
  {
    match a
    case Receive(r) => s.reader == Idle
    case Read => s.reader != Idle && (s.reader.Received? ==> s.lock == Nobody)
    case Write => s.writer != Asleep && (s.writer == Locking ==> s.lock == Nobody)
  }

  function ReaderStep(s: State): State
    requires Enabled(Read, s)
  {
    match s.reader
    case Received(r) => s.(lock := ByReader, reader := Checking(r))
    case Checking(r) =>
      if Differs(s.last, r) then s.(accepted := s.accepted + [r], reader := StoringPeriod(r))
      else s.(lock := Nobody, reader := Idle)
    case StoringPeriod(r) => s.(last := s.last.(period := r.period), reader := StoringSports(r))
    case StoringSports(r) => s.(last := s.last.(sports := r.sports), lock := Nobody, reader := Flagging)
    case Flagging => s.(changed := true, reader := Notifying)
    case Notifying => s.(writer := if s.writer == Asleep then Waiting else s.writer, reader := Idle)
  }

  function WriterStep(s: State): State
    requires Enabled(Write, s)
  {
    match s.writer
    case Waiting => s.(writer := if s.changed then Swapping else FallingAsleep)
    case FallingAsleep => s.(writer := Asleep)
    case Swapping => if s.changed then s.(changed := false, writer := Clearing) else s.(writer := Using(false))
    case Clearing => s.(snapshot := s.snapshot.(sports := []), writer := Locking)
    case Locking => s.(lock := ByWriter, writer := CopyingPeriod)
    case CopyingPeriod => s.(snapshot := s.snapshot.(period := s.last.period), writer := CopyingSports)
    case CopyingSports =>
      var n := |s.snapshot.sports|;
      if n < |s.last.sports| then s.(snapshot := s.snapshot.(sports := s.snapshot.sports + [s.last.sports[n]]))
      else s.(lock := Nobody, writer := Using(true), index := if s.accepted == [] then 0 else |s.accepted| - 1)
    case Using(c) => s.(writer := Swapping, uses := s.uses + [Use(s.snapshot, c, s.index)])
  }

  function Apply(a: Action, s: State): State
    requires Enabled(a, s)
  {
    match a
    case Receive(r) => s.(reader := Received(r))
    case Read => ReaderStep(s)
    case Write => WriterStep(s)
  }

  predicate Copying(w: Writer) { w.Clearing? || w.Locking? || w.CopyingPeriod? || w.CopyingSports? }

  predicate Newest(s: State) { s.accepted != [] && s.index == |s.accepted| - 1 }

  /** The reader between deciding to accept and flagging it. */
  predicate Accepting(r: Reader) { r.StoringPeriod? || r.StoringSports? || r.Flagging? }

  predicate LockOk(s: State)
  {
    && (s.lock == ByReader <==> s.reader.Checking? || s.reader.StoringPeriod? || s.reader.StoringSports?)
    && (s.lock == ByWriter <==> s.writer.CopyingPeriod? || s.writer.CopyingSports?)
  }

  predicate StoreOk(s: State)
  {
    && s.accepted != [] && s.index < |s.accepted|
    && var newest := s.accepted[|s.accepted| - 1];
       match s.reader
       case StoringPeriod(r) => r == newest
       case StoringSports(r) => r == newest && s.last.period == r.period
       case _ => s.last == newest
  }

  predicate SnapshotOk(s: State)
    requires s.index < |s.accepted|
  {
    match s.writer
    case Clearing => true
    case Locking => s.snapshot.sports == []
    case CopyingPeriod => s.snapshot.sports == []
    case CopyingSports => s.snapshot.period == s.last.period && s.snapshot.sports <= s.last.sports
    case _ => s.snapshot == s.accepted[s.index]
  }

  predicate UsesOk(s: State)
  {
    && (forall i :: 0 <= i < |s.uses| ==> s.uses[i].index <= s.index)
    && (forall i :: 0 <= i < |s.uses| ==>
          s.uses[i].index < |s.accepted| && s.uses[i].snapshot == s.accepted[s.uses[i].index])
    && (forall i, j :: 0 <= i <= j < |s.uses| ==> s.uses[i].index <= s.uses[j].index)
  }

  /** No accepted request is forgotten: it is in the snapshot, or someone is about to bring it there. */
  predicate NothingLost(s: State) { Newest(s) || s.changed || Accepting(s.reader) || Copying(s.writer) }

  /** Before the writer first wakes up no one takes the flag back. */
  predicate FlagOk(s: State)
  {
    s.reader == Notifying && (s.writer == Waiting || s.writer == FallingAsleep || s.writer == Asleep) ==> s.changed
  }

  predicate Inv(s: State)
  {
    LockOk(s) && StoreOk(s) && SnapshotOk(s) && UsesOk(s) && NothingLost(s) && FlagOk(s)
  }

  lemma StepKeepsInv(s: State, a: Action)
    requires Inv(s) && Enabled(a, s)
    ensures Inv(Apply(a, s)) && s.accepted <= Apply(a, s).accepted && s.index <= Apply(a, s).index
    ensures s.uses <= Apply(a, s).uses
  {
    match a
    case Receive(r) =>
    case Read => ReaderKeepsInv(s);
    case Write => WriterKeepsInv(s);
  }

  lemma ReaderKeepsInv(s: State)
    requires Inv(s) && Enabled(Read, s)
    ensures Inv(ReaderStep(s)) && s.accepted <= ReaderStep(s).accepted
    ensures s.index == ReaderStep(s).index && s.uses == ReaderStep(s).uses
  {
    AcceptingKeepsUses(s, ReaderStep(s));
    if s.reader.Received? || s.reader.Checking? {
      DecidingKeepsInv(s);
    } else if Accepting(s.reader) {
      StoringKeepsInv(s);
    }
  }

  lemma DecidingKeepsInv(s: State)
    requires Inv(s) && Enabled(Read, s) && (s.reader.Received? || s.reader.Checking?) && UsesOk(ReaderStep(s))
    ensures Inv(ReaderStep(s))
  {
  }

  lemma StoringKeepsInv(s: State)
    requires Inv(s) && Accepting(s.reader) && UsesOk(ReaderStep(s))
    ensures Inv(ReaderStep(s))
  {
  }

  lemma AcceptingKeepsUses(s: State, t: State)
    requires UsesOk(s) && t.uses == s.uses && t.index == s.index && s.accepted <= t.accepted
    ensures UsesOk(t)
  {
  }

  lemma WriterKeepsInv(s: State)
    requires Inv(s) && Enabled(Write, s)
    ensures Inv(WriterStep(s)) && s.accepted == WriterStep(s).accepted
    ensures s.index <= WriterStep(s).index && s.uses <= WriterStep(s).uses
  {
    if s.writer.Using? {
      UsingKeepsUses(s);
    } else if Copying(s.writer) {
      CopyingKeepsInv(s);
    } else {
      SleepingKeepsInv(s);
    }
  }

  lemma CopyingKeepsInv(s: State)
    requires Inv(s) && Enabled(Write, s) && Copying(s.writer)
    ensures Inv(WriterStep(s)) && s.accepted == WriterStep(s).accepted
    ensures s.index <= WriterStep(s).index && s.uses == WriterStep(s).uses
  {
    if s.writer.CopyingSports? { CopyKeepsSnapshot(s); }
  }

  lemma SleepingKeepsInv(s: State)
    requires Inv(s) && (s.writer.Waiting? || s.writer.FallingAsleep? || s.writer.Swapping?)
    ensures Inv(WriterStep(s)) && s.accepted == WriterStep(s).accepted
    ensures s.index == WriterStep(s).index && s.uses == WriterStep(s).uses
  {
  }

  lemma UsingKeepsUses(s: State)
    requires Inv(s) && s.writer.Using?
    ensures UsesOk(WriterStep(s)) && s.uses <= WriterStep(s).uses
  {
  }

  lemma CopyKeepsSnapshot(s: State)
    requires StoreOk(s) && SnapshotOk(s) && LockOk(s) && s.writer.CopyingSports?
    ensures StoreOk(WriterStep(s)) && SnapshotOk(WriterStep(s))
  {
    var n := |s.snapshot.sports|;
    if n < |s.last.sports| {
      assert s.snapshot.sports + [s.last.sports[n]] == s.last.sports[..n + 1];
    } else {
      assert s.snapshot.sports == s.last.sports;
    }
  }

  predicate Run(s: State, steps: seq<Action>, t: State)
    decreases |steps|
  {
    if steps == [] then t == s else Enabled(steps[0], s) && Run(Apply(steps[0], s), steps[1..], t)
  }

  lemma {:induction false} RunKeepsInv(s: State, steps: seq<Action>, t: State)
    requires Inv(s) && Run(s, steps, t)
    ensures Inv(t) && s.accepted <= t.accepted && s.index <= t.index && s.uses <= t.uses
    decreases |steps|
  {
    if steps != [] {
      StepKeepsInv(s, steps[0]);
      RunKeepsInv(Apply(steps[0], s), steps[1..], t);
    }
  }

  /**
   * Over every interleaving: each snapshot served is one whole accepted request, later ones are never older,
   * and while no change is flagged, being flagged or being copied, the snapshot is the last request itself.
   */
  lemma SnapshotsAreWhole(steps: seq<Action>, t: State)
    requires Run(Init(), steps, t)
    ensures forall i :: 0 <= i < |t.uses| ==>
              t.uses[i].index < |t.accepted| && t.uses[i].snapshot == t.accepted[t.uses[i].index]
    ensures forall i, j :: 0 <= i <= j < |t.uses| ==> t.uses[i].index <= t.uses[j].index
    ensures !t.changed && !Accepting(t.reader) && !Copying(t.writer) ==> t.snapshot == t.last
  {
    RunKeepsInv(Init(), steps, t);
  }

  /** The reader works alone until it waits for the next request. */
  function ReaderAlone(s: State, steps: nat): State
    decreases steps
  {
    if steps == 0 || !Enabled(Read, s) then s else ReaderAlone(ReaderStep(s), steps - 1)
  }

  lemma {:induction false} AloneTwice(s: State, m: nat, n: nat)
    ensures ReaderAlone(s, m + n) == ReaderAlone(ReaderAlone(s, m), n)
    decreases m
  {
    if m > 0 && Enabled(Read, s) {
      AloneTwice(ReaderStep(s), m - 1, n);
    }
  }

  /** Under the lock a request is compared, and stored if it differs. */
  lemma CheckedExactly(s: State, r: Request)
    requires Inv(s) && s.reader == Received(r) && s.lock == Nobody
    ensures var t := ReaderAlone(s, 4);
            && t.lock == Nobody && t.changed == s.changed
            && (if s.last.period == r.period && |s.last.sports| == |r.sports| then
                  t.reader == Idle && t.last == s.last && t.accepted == s.accepted
                else
                  t.reader == Flagging && t.last == r && t.accepted == s.accepted + [r])
  {
    var s2 := ReaderStep(ReaderStep(s));
    assert ReaderAlone(s, 4) == ReaderAlone(s2, 2);
    if Differs(s.last, r) {
      assert ReaderAlone(s2, 2) == ReaderStep(ReaderStep(s2));
      assert ReaderStep(ReaderStep(s2)).last == r;
    }
  }

  lemma FlaggedAlone(s: State)
    requires s.reader == Flagging
    ensures var t := ReaderAlone(s, 2);
            t.reader == Idle && t.last == s.last && t.accepted == s.accepted && t.changed
  {
    assert ReaderAlone(s, 2) == ReaderStep(ReaderStep(s));
  }

  /**
   * A request is accepted exactly if its period or its number of sports differs from the last one's:
   * other sports of the same number are not noticed.
   */
  lemma AcceptedExactly(s: State, r: Request)
    requires Inv(s) && s.reader == Received(r) && s.lock == Nobody
    ensures var t := ReaderAlone(s, 6);
            && t.reader == Idle
            && (if s.last.period == r.period && |s.last.sports| == |r.sports| then
                  t.last == s.last && t.accepted == s.accepted && t.changed == s.changed
                else
                  t.last == r && t.accepted == s.accepted + [r] && t.changed)
  {
    AloneTwice(s, 4, 2);
    CheckedExactly(s, r);
    if Differs(s.last, r) {
      FlaggedAlone(ReaderAlone(s, 4));
    }
  }

  /** The writer works alone, from a point where it looks at the flag until it serves a snapshot. */
  function WriterAlone(s: State): State
    decreases match s.writer
      case Swapping => 5
      case Clearing => 4
      case Locking => 3
      case CopyingPeriod => 2
      case CopyingSports => 1
      case _ => 0, if |s.last.sports| > |s.snapshot.sports| then |s.last.sports| - |s.snapshot.sports| else 0
  {
    if (Copying(s.writer) || s.writer.Swapping?) && Enabled(Write, s) then WriterAlone(WriterStep(s)) else s
  }

  /** One round of an awake writer brings the newest request into the snapshot, if the reader is idle meanwhile. */
  lemma {:induction false} WriterCatchesUp(s: State)
    requires Inv(s) && s.reader == Idle && (Copying(s.writer) || s.writer.Swapping?)
    ensures var t := WriterAlone(s);
            && Inv(t) && t.snapshot == t.last == s.last
            && t.writer == Using(s.writer != Swapping || s.changed) && t.changed == (s.writer != Swapping && s.changed)
            && (s.writer == Swapping && !s.changed ==> t.snapshot == s.snapshot)
    decreases match s.writer
      case Swapping => 5
      case Clearing => 4
      case Locking => 3
      case CopyingPeriod => 2
      case CopyingSports => 1
      case _ => 0, if |s.last.sports| > |s.snapshot.sports| then |s.last.sports| - |s.snapshot.sports| else 0
  {
    WriterKeepsInv(s);
    var t := WriterStep(s);
    if Copying(t.writer) {
      WriterCatchesUp(t);
    } else {
      assert WriterAlone(t) == t;
    }
  }

  /** Once awake the writer never sleeps again. */
  lemma {:induction false} StaysAwake(s: State, steps: seq<Action>, t: State)
    requires Run(s, steps, t) && !Waits(s.writer)
    ensures !Waits(t.writer)
    decreases |steps|
  {
    if steps != [] { StaysAwake(Apply(steps[0], s), steps[1..], t); }
  }

  predicate Waits(w: Writer) { w.Waiting? || w.FallingAsleep? || w.Asleep? }

  /** What an awake writer finds when it looks at the flag. */
  function Look(a: Action, s: State): seq<bool> { if a == Write && s.writer == Swapping then [s.changed] else [] }

  function Looks(s: State, steps: seq<Action>): seq<bool>
    decreases |steps|
  {
    if steps == [] || !Enabled(steps[0], s) then []
    else Look(steps[0], s) + Looks(Apply(steps[0], s), steps[1..])
  }

  function Flags(uses: seq<Use>): seq<bool> { seq(|uses|, i requires 0 <= i < |uses| => uses[i].changed) }

  /** The round that has begun and has not served its snapshot yet. */
  function Underway(w: Writer): seq<bool> { if Copying(w) then [true] else if w.Using? then [w.changed] else [] }

  lemma LookLeadsOn(s: State, a: Action)
    requires Enabled(a, s)
    ensures var t := Apply(a, s); Flags(t.uses) + Underway(t.writer) == Flags(s.uses) + Underway(s.writer) + Look(a, s)
  {
    if a == Write && s.writer.Using? {
      assert Flags(WriterStep(s).uses) == Flags(s.uses) + [s.writer.changed];
    }
  }

  lemma {:induction false} RunLooks(s: State, steps: seq<Action>, t: State)
    requires Run(s, steps, t)
    ensures Flags(t.uses) + Underway(t.writer) == Flags(s.uses) + Underway(s.writer) + Looks(s, steps)
    decreases |steps|
  {
    if steps != [] {
      LookLeadsOn(s, steps[0]);
      RunLooks(Apply(steps[0], s), steps[1..], t);
    }
  }

  /** Over every interleaving: each look at the flag is served once, in order, and told as a change if it found one. */
  lemma EveryLookIsServed(steps: seq<Action>, t: State)
    requires Run(Init(), steps, t)
    ensures Flags(t.uses) + Underway(t.writer) == Looks(Init(), steps)
  {
    RunLooks(Init(), steps, t);
  }

  /** The steps of a first request that is stored and flagged after the writer looked, and notified before it sleeps. */
  function SleepySteps(r: Request): seq<Action>
  {
    [Receive(r), Write] + ([Read, Read, Read] + ([Read, Read, Read] + [Write]))
  }

  /** Falling asleep is not protected against the notification: the change can stay flagged with the writer asleep. */
  lemma WakeUpCanBeLost(r: Request) returns (t: State)
    requires Differs(DEFAULT, r)
    ensures Run(Init(), SleepySteps(r), t)
    ensures t.writer == Asleep && t.reader == Idle && Stuck(t) && t.last == r && t.uses == []
  {
    var s2 := Init().(reader := Received(r), writer := FallingAsleep);
    var s5 := ReaderStep(ReaderStep(ReaderStep(s2)));
    assert s5.reader == StoringSports(r) && s5.writer == FallingAsleep && s5.last.period == r.period;
    var s8 := ReaderStep(ReaderStep(ReaderStep(s5)));
    assert s8.last == r && s8.writer == FallingAsleep && s8.changed && s8.reader == Idle;
    t := WriterStep(s8);
    assert Run(s8, [Write], t);
    ThreeReads(s5, [Write], t);
    ThreeReads(s2, [Read, Read, Read] + [Write], t);
    var rest := [Read, Read, Read] + ([Read, Read, Read] + [Write]);
    RunCons(Apply(Receive(r), Init()), Write, rest, t);
    RunCons(Init(), Receive(r), [Write] + rest, t);
    assert [Receive(r)] + ([Write] + rest) == SleepySteps(r);
  }

  lemma RunCons(s: State, a: Action, steps: seq<Action>, t: State)
    requires Enabled(a, s) && Run(Apply(a, s), steps, t)
    ensures Run(s, [a] + steps, t)
  {
    assert ([a] + steps)[1..] == steps;
  }

  lemma ThreeReads(s: State, steps: seq<Action>, t: State)
    requires Enabled(Read, s) && Enabled(Read, ReaderStep(s)) && Enabled(Read, ReaderStep(ReaderStep(s)))
    requires Run(ReaderStep(ReaderStep(ReaderStep(s))), steps, t)
    ensures Run(s, [Read, Read, Read] + steps, t)
  {
    RunCons(ReaderStep(ReaderStep(s)), Read, steps, t);
    RunCons(ReaderStep(s), Read, [Read] + steps, t);
    RunCons(s, Read, [Read] + ([Read] + steps), t);
    assert [Read] + ([Read] + ([Read] + steps)) == [Read, Read, Read] + steps;
  }

  /** The writer sleeps, or is about to, on a change that is flagged and that no one is about to notify of. */
  predicate Stuck(s: State)
  {
    (s.writer == Asleep || s.writer == FallingAsleep) && s.changed && s.reader != Notifying
  }

  /** The writer gets stuck exactly by a notification that falls between its look at the flag and its sleep. */
  lemma GetsStuckExactly(s: State, a: Action)
    requires Inv(s) && Enabled(a, s) && !Stuck(s)
    ensures Stuck(Apply(a, s)) <==> a == Read && Missed(s)
  {
  }

  /** And it stays so exactly until another request is accepted and flagged. */
  lemma StaysStuckUntilFlagged(s: State, a: Action)
    requires Inv(s) && Enabled(a, s) && Stuck(s)
    ensures Stuck(Apply(a, s)) <==> !(a == Read && s.reader == Flagging)
  {
  }

  /** The next notification comes while the writer is falling asleep. */
  predicate Missed(s: State) { s.reader == Notifying && s.writer == FallingAsleep }

  /** Whether the last notification of a run was missed, if the one before the run was. */
  predicate LastMissed(s: State, steps: seq<Action>, before: bool)
    decreases |steps|
  {
    if steps == [] || !Enabled(steps[0], s) then before
    else LastMissed(Apply(steps[0], s), steps[1..],
                    if steps[0] == Read && s.reader == Notifying then Missed(s) else before)
  }

  lemma {:induction false} StuckOverRuns(s: State, steps: seq<Action>, t: State, missed: bool)
    requires Inv(s) && Run(s, steps, t) && (Stuck(s) <==> missed && s.reader != Notifying)
    ensures Stuck(t) <==> LastMissed(s, steps, missed) && t.reader != Notifying
    decreases |steps|
  {
    if steps != [] {
      var a := steps[0];
      StepKeepsInv(s, a);
      if Stuck(s) {
        StaysStuckUntilFlagged(s, a);
      } else {
        GetsStuckExactly(s, a);
      }
      StuckOverRuns(Apply(a, s), steps[1..], t, if a == Read && s.reader == Notifying then Missed(s) else missed);
    }
  }

  /**
   * Over every run: the writer sleeps on a flagged change, with no notification on its way, exactly when the
   * last notification was missed.
   */
  lemma StuckExactly(steps: seq<Action>, t: State)
    requires Run(Init(), steps, t)
    ensures Stuck(t) <==> LastMissed(Init(), steps, false) && t.reader != Notifying
  {
    StuckOverRuns(Init(), steps, t, false);
  }

  datatype NextOperation = ReadNext | FinishStream | NoOperation

  /** The server's code where nothing else runs in between: the steps of one thread, the other one standing still. */
  class Handshake {
    var request: Request
    var last: Request
    var changed: bool

    constructor ()
      ensures last == DEFAULT && !changed
    {
      request, last, changed := DEFAULT, DEFAULT, false;
    }

    /** The state of the model in which the request was read, or the writer looks at the flag. */
    ghost predicate Matches(s: State)
      reads this
    {
      && Inv(s) && s.last == last && s.changed == changed && s.lock == Nobody
      && (s.reader == Received(request) || (s.reader == Idle && s.writer == Swapping))
    }

    method CheckRequest(ghost s: State) returns (accepted: bool)
      modifies this`last
      ensures accepted <==> old(last).period != request.period || |old(last).sports| != |request.sports|
      ensures last == if accepted then request else old(last)
      ensures old(Matches(s)) && s.reader.Received? ==>
                var t := ReaderAlone(s, 4); last == t.last && accepted == (t.reader == Flagging)
    {
      if s.reader.Received? && Matches(s) { CheckedExactly(s, request); }
      if last.period != request.period {
        last := request;
        return true;
      }
      if |last.sports| != |request.sports| {
        last := request;
        return true;
      }
      return false;
    }

    /** A request was read, or reading failed; only after a read that succeeded another one is asked for. */
    method HandleRead(ok: bool, cancelled: bool, ghost s: State) returns (result: bool, op: NextOperation)
      modifies this`last, this`changed
      ensures op == if ok then ReadNext else if cancelled then FinishStream else NoOperation
      ensures result <==> ok || !cancelled
      ensures var differs := old(last).period != request.period || |old(last).sports| != |request.sports|;
              && last == (if ok && differs then request else old(last))
              && (changed <==> old(changed) || (ok && differs))
      ensures ok && old(Matches(s)) && s.reader.Received? ==>
                var t := ReaderAlone(s, 6); last == t.last && changed == t.changed && t.reader == Idle
    {
      if !ok {
        if cancelled { return false, FinishStream; }
        return true, NoOperation;
      }
      if s.reader.Received? && Matches(s) { AcceptedExactly(s, request); }
      var accepted := CheckRequest(s);
      if accepted { changed := true; }
      return true, ReadNext;
    }

    /** Copies the last request, sport by sport, if a change is flagged. */
    method TakeSnapshot(given: Request, ghost s: State) returns (snapshot: Request, refreshed: bool)
      modifies this`changed
      ensures refreshed == old(changed) && !changed
      ensures snapshot == if refreshed then last else given
      ensures old(Matches(s)) && s.reader == Idle && s.snapshot == given ==>
                var t := WriterAlone(s); snapshot == t.snapshot && changed == t.changed && t.writer == Using(refreshed)
    {
      if s.reader == Idle && Matches(s) { WriterCatchesUp(s); }
      snapshot := given;
      if !changed { return snapshot, false; }
      changed := false;
      var period, sports: seq<string> := last.period, [];
      for i := 0 to |last.sports|
        invariant sports == last.sports[..i]
      {
        sports := sports + [last.sports[i]];
      }
      return Request(period, sports), true;
    }
  }
}
