/**
 * The worker pool as a step system: any number of posting threads, N workers and the thread that
 * runs the destructor take turns in any order.
 */
module ThreadPool {
  import opened CircularQueue
  import BlockingQueue
  import opened Options

  datatype Msg = Log(text: string) | Flush | Terminate

  /** How a message left the queue. */
  datatype Removal = Taken(worker: nat, msg: Msg) | Dropped(msg: Msg)

  /** A busy worker holds the message that was removed at the given place. */
  datatype Worker = Idle | Busy(at: nat) | Stopped

  datatype Phase = Alive | Closing | Joined

  datatype Action =
    | Post(msg: Msg, block: bool)
    | Take(w: nat)
    | Handle(w: nat)
    | BeginDestructor
    | PostTerminate
    | Join

  /** The last five fields are history: they record the run and never decide a step. */
  datatype Pool = Pool(
    capacity: nat, queue: seq<Msg>, overrun: nat, workers: seq<Worker>, phase: Phase, sent: nat,
    posted: seq<Msg>, removed: seq<Removal>, processed: seq<nat>, late: nat)

  /** None stands for the error thrown for a bad number of threads. */
  function Create(capacity: nat, threads: nat): Option<Pool>
  {
    if threads == 0 || threads > 1000 then None
    else Some(Pool(capacity, [], 0, seq(threads, _ => Idle), Alive, 0, [], [], [], 0))
  }

  /** A step that would have to wait is not enabled. */
  predicate Enabled(a: Action, s: Pool)
  {
    s.phase != Joined &&
    match a
    case Post(msg, block) => msg != Terminate && (block ==> |s.queue| < s.capacity)
    case Take(w) => w < |s.workers| && s.workers[w] == Idle && s.queue != []
    case Handle(w) => w < |s.workers| && s.workers[w].Busy? && s.workers[w].at < |s.removed|
    case BeginDestructor => s.phase == Alive
    case PostTerminate => s.phase == Closing && s.sent < |s.workers| && |s.queue| < s.capacity
    case Join => s.phase == Closing && s.sent == |s.workers| && AllStopped(s)
  }

  predicate AllStopped(s: Pool) { forall w :: 0 <= w < |s.workers| ==> s.workers[w] == Stopped }

  function Drops(ms: seq<Msg>): seq<Removal> { seq(|ms|, i requires 0 <= i < |ms| => Dropped(ms[i])) }

  function Push(s: Pool, m: Msg): Pool
    requires |s.queue| <= s.capacity
  {
    var lost := Overrun(s.queue, s.capacity, m);
    s.(queue := Pushed(s.queue, s.capacity, m), posted := s.posted + [m],
       overrun := s.overrun + |lost|, removed := s.removed + Drops(lost))
  }

  function Apply(a: Action, s: Pool): Pool
    requires Enabled(a, s) && |s.queue| <= s.capacity
  {
    match a
    case Post(msg, block) => Push(s, msg).(late := if s.phase == Closing then s.late + 1 else s.late)
    case Take(w) =>
      s.(queue := s.queue[1..], removed := s.removed + [Taken(w, s.queue[0])],
         workers := s.workers[w := Busy(|s.removed|)])
    case Handle(w) =>
      var k := s.workers[w].at;
      if s.removed[k].msg == Terminate then s.(workers := s.workers[w := Stopped])
      else s.(workers := s.workers[w := Idle], processed := s.processed + [k])
    case BeginDestructor => s.(phase := Closing)
    case PostTerminate => Push(s, Terminate).(sent := s.sent + 1)
    case Join => s.(phase := Joined)
  }

  /** Counting terminates. */
  function Terminates(ms: seq<Msg>): nat
  {
    if ms == [] then 0 else Terminates(ms[..|ms| - 1]) + if ms[|ms| - 1] == Terminate then 1 else 0
  }

  function Msgs(r: seq<Removal>): (ms: seq<Msg>)
    ensures |ms| == |r| && forall i :: 0 <= i < |r| ==> ms[i] == r[i].msg
  {
    if r == [] then [] else Msgs(r[..|r| - 1]) + [r[|r| - 1].msg]
  }

  function TakenBy(r: seq<Removal>, w: nat): nat
  {
    if r == [] then 0
    else TakenBy(r[..|r| - 1], w) + if r[|r| - 1] == Taken(w, Terminate) then 1 else 0
  }

  function DroppedTerminates(r: seq<Removal>): nat
  {
    if r == [] then 0
    else DroppedTerminates(r[..|r| - 1]) + if r[|r| - 1] == Dropped(Terminate) then 1 else 0
  }

  function DropCount(r: seq<Removal>): nat
  {
    if r == [] then 0 else DropCount(r[..|r| - 1]) + if r[|r| - 1].Dropped? then 1 else 0
  }

  /** Terminates taken by the first n workers. */
  function TakenByFirst(r: seq<Removal>, n: nat): nat
  {
    if n == 0 then 0 else TakenByFirst(r, n - 1) + TakenBy(r, n - 1)
  }

  lemma Snoc(r: seq<Removal>, x: Removal)
    ensures Msgs(r + [x]) == Msgs(r) + [x.msg]
    ensures DropCount(r + [x]) == DropCount(r) + if x.Dropped? then 1 else 0
    ensures DroppedTerminates(r + [x]) == DroppedTerminates(r) + if x == Dropped(Terminate) then 1 else 0
  {
    assert (r + [x])[..|r|] == r;
  }

  lemma TakenBySnoc(r: seq<Removal>, x: Removal, w: nat)
    ensures TakenBy(r + [x], w) == TakenBy(r, w) + if x == Taken(w, Terminate) then 1 else 0
  {
    assert (r + [x])[..|r|] == r;
  }

  lemma {:induction false} TerminatesConcat(a: seq<Msg>, b: seq<Msg>)
    ensures Terminates(a + b) == Terminates(a) + Terminates(b)
  {
    if b == [] {
      assert a + b == a;
    } else {
      assert (a + b)[..|a + b| - 1] == a + b[..|b| - 1];
      TerminatesConcat(a, b[..|b| - 1]);
    }
  }

  predicate WorkersBelow(r: seq<Removal>, n: nat) { forall k :: 0 <= k < |r| && r[k].Taken? ==> r[k].worker < n }

  lemma {:induction false} TakenByFirstSnoc(r: seq<Removal>, x: Removal, n: nat)
    ensures TakenByFirst(r + [x], n)
            == TakenByFirst(r, n) + if x.Taken? && x.msg == Terminate && x.worker < n then 1 else 0
  {
    if n > 0 {
      TakenByFirstSnoc(r, x, n - 1);
      TakenBySnoc(r, x, n - 1);
    }
  }

  lemma {:induction false} NothingTaken(n: nat)
    ensures TakenByFirst([], n) == 0
  {
    if n > 0 { NothingTaken(n - 1); }
  }

  /** Every terminate that left the queue was taken by a worker or dropped. */
  lemma {:induction false} TerminatesRemoved(r: seq<Removal>, n: nat)
    requires WorkersBelow(r, n)
    ensures Terminates(Msgs(r)) == TakenByFirst(r, n) + DroppedTerminates(r)
  {
    if r == [] {
      NothingTaken(n);
    } else {
      var front, x := r[..|r| - 1], r[|r| - 1];
      assert r == front + [x];
      TerminatesRemoved(front, n);
      TakenByFirstSnoc(front, x, n);
      TerminatesConcat(Msgs(front), [x.msg]);
      assert Terminates([x.msg]) == if x.msg == Terminate then 1 else 0;
    }
  }

  lemma {:induction false} AllTookOne(r: seq<Removal>, n: nat)
    requires forall w: nat :: w < n ==> TakenBy(r, w) <= 1
    ensures TakenByFirst(r, n) <= n
    ensures TakenByFirst(r, n) == n <==> forall w: nat :: w < n ==> TakenBy(r, w) == 1
  {
    if n > 0 {
      AllTookOne(r, n - 1);
      assert TakenBy(r, n - 1) <= 1;
      if TakenByFirst(r, n) == n {
        forall w: nat | w < n ensures TakenBy(r, w) == 1 {
          if w < n - 1 { assert TakenByFirst(r, n - 1) == n - 1; }
        }
      }
    }
  }

  /** Whether the worker has taken its terminate. */
  predicate HasTerminate(s: Pool, w: nat)
    requires w < |s.workers|
  {
    s.workers[w] == Stopped || Holds(s, w, Terminate)
  }

  predicate Holds(s: Pool, w: nat, m: Msg)
    requires w < |s.workers|
  {
    s.workers[w].Busy? && s.workers[w].at < |s.removed| && s.removed[s.workers[w].at].msg == m
  }

  predicate WorkerOk(s: Pool, w: nat)
    requires w < |s.workers|
  {
    && (s.workers[w].Busy? ==> s.workers[w].at < |s.removed| && s.removed[s.workers[w].at].Taken?
                               && s.removed[s.workers[w].at].worker == w)
    && TakenBy(s.removed, w) == if HasTerminate(s, w) then 1 else 0
  }

  /** A message has been processed if a worker took it and is done with it. */
  predicate Finished(s: Pool, k: nat)
  {
    && k < |s.removed| && s.removed[k].Taken? && s.removed[k].msg != Terminate
    && s.removed[k].worker < |s.workers| && s.workers[s.removed[k].worker] != Busy(k)
  }

  /** The queue is what is left of the messages posted, in their order; removals are the messages before. */
  predicate QueueOk(s: Pool)
  {
    && |s.queue| <= s.capacity && s.posted == Msgs(s.removed) + s.queue
    && s.overrun == DropCount(s.removed)
  }

  predicate WorkersOk(s: Pool)
  {
    WorkersBelow(s.removed, |s.workers|) && forall w: nat :: w < |s.workers| ==> WorkerOk(s, w)
  }

  ghost predicate ProcessedOk(s: Pool)
  {
    && (forall k: nat :: k in s.processed <==> Finished(s, k))
    && (forall i, j :: 0 <= i < j < |s.processed| ==> s.processed[i] != s.processed[j])
  }

  /** The destructor's messages: as many as sent, and, unless others post late, the last ones posted. */
  predicate ClosingOk(s: Pool)
  {
    && s.workers != [] && s.sent <= |s.workers| && Terminates(s.posted) == s.sent
    && (s.phase == Alive ==> s.sent == 0 && s.late == 0)
    && (s.late == 0 ==> DroppedTerminates(s.removed) == 0 && s.sent <= |s.posted|
                        && (forall i :: |s.posted| - s.sent <= i < |s.posted| ==> s.posted[i] == Terminate))
    && (s.phase == Joined ==> AllStopped(s)) && (s.capacity == 0 ==> s.sent == 0)
  }

  ghost predicate Inv(s: Pool) { QueueOk(s) && WorkersOk(s) && ProcessedOk(s) && ClosingOk(s) }

  lemma CreateInv(capacity: nat, threads: nat)
    ensures var s := Create(capacity, threads);
            && (s.Some? <==> 1 <= threads <= 1000)
            && (s.Some? ==> Inv(s.value) && s.value.capacity == capacity && s.value.queue == [] && s.value.posted == [])
            && (s.Some? ==> |s.value.workers| == threads && s.value.phase == Alive && s.value.sent == 0)
            && (s.Some? ==> forall w :: 0 <= w < threads ==> s.value.workers[w] == Idle)
  {
  }

  /** What a push adds to the history. */
  lemma PushFacts(s: Pool, m: Msg)
    requires QueueOk(s)
    ensures QueueOk(Push(s, m)) && Adds(s.removed, Push(s, m).removed)
    ensures Terminates(s.posted + [m]) == Terminates(s.posted) + if m == Terminate then 1 else 0
    ensures |s.queue| < s.capacity ==> Push(s, m).removed == s.removed
  {
    TerminatesConcat(s.posted, [m]);
    assert Terminates([m]) == if m == Terminate then 1 else 0;
    PushQueueOk(s, m);
  }

  lemma PushQueueOk(s: Pool, m: Msg)
    requires QueueOk(s)
    ensures QueueOk(Push(s, m)) && Adds(s.removed, Push(s, m).removed)
    ensures |s.queue| < s.capacity ==> Push(s, m).removed == s.removed
  {
    var lost, left := Overrun(s.queue, s.capacity, m), Pushed(s.queue, s.capacity, m);
    PushKeepsOrder(s.queue, s.capacity, m);
    Regrouped(Msgs(s.removed), s.queue, [m], lost, left);
    if lost == [] {
      assert s.removed + Drops(lost) == s.removed && Msgs(s.removed) + lost == Msgs(s.removed);
    } else {
      assert Drops(lost) == [Dropped(lost[0])] && lost == [lost[0]];
      Snoc(s.removed, Dropped(lost[0]));
    }
  }

  lemma Regrouped(done: seq<Msg>, queue: seq<Msg>, more: seq<Msg>, lost: seq<Msg>, left: seq<Msg>)
    requires queue + more == lost + left
    ensures (done + queue) + more == (done + lost) + left
  {
    assert (done + queue) + more == done + (queue + more);
    assert done + (lost + left) == (done + lost) + left;
  }

  /** At most one message is dropped. */
  predicate Adds(r: seq<Removal>, q: seq<Removal>)
  {
    q == r || (|q| == |r| + 1 && q[..|r|] == r && q[|r|].Dropped?)
  }

  /** Dropping a message disturbs no worker. */
  lemma DropKeepsWorkers(s: Pool, t: Pool)
    requires WorkersOk(s) && ProcessedOk(s)
    requires t.workers == s.workers && t.processed == s.processed && Adds(s.removed, t.removed)
    ensures WorkersOk(t) && ProcessedOk(t)
  {
    forall w: nat | w < |s.workers| ensures WorkerOk(t, w) {
      assert WorkerOk(s, w);
      if t.removed != s.removed {
        assert t.removed == s.removed + [t.removed[|s.removed|]];
        TakenBySnoc(s.removed, t.removed[|s.removed|], w);
      }
    }
    assert forall k: nat :: Finished(t, k) <==> Finished(s, k);
  }

  /** Without late posts no terminate can be overrun: before the destructor starts there is none. */
  lemma DroppedNotTerminate(s: Pool, m: Msg)
    requires Inv(s) && m != Terminate && s.phase == Alive
    ensures DroppedTerminates(Push(s, m).removed) == 0
  {
    PushFacts(s, m);
    var t := Push(s, m);
    TerminatesConcat(Msgs(t.removed), t.queue);
    DropKeepsWorkers(s, t);
    TerminatesRemoved(t.removed, |t.workers|);
  }

  lemma PostKeeps(s: Pool, m: Msg, block: bool)
    requires Inv(s) && Enabled(Post(m, block), s)
    ensures Inv(Apply(Post(m, block), s))
  {
    var t := Apply(Post(m, block), s);
    PushFacts(s, m);
    DropKeepsWorkers(s, t);
    if s.phase == Alive { DroppedNotTerminate(s, m); }
  }

  lemma PostTerminateKeeps(s: Pool)
    requires Inv(s) && Enabled(PostTerminate, s)
    ensures Inv(Apply(PostTerminate, s))
  {
    var t := Apply(PostTerminate, s);
    PushFacts(s, Terminate);
    DropKeepsWorkers(s, t);
    assert QueueOk(t);
    OneMoreSent(s, t);
  }

  lemma OneMoreSent(s: Pool, t: Pool)
    requires ClosingOk(s) && s.phase == Closing && s.sent < |s.workers| && 0 < s.capacity
    requires t.phase == Closing && t.late == s.late && t.workers == s.workers && t.removed == s.removed
    requires t.sent == s.sent + 1 && t.posted == s.posted + [Terminate] && t.capacity == s.capacity
    ensures ClosingOk(t)
  {
    TerminatesConcat(s.posted, [Terminate]);
    assert Terminates([Terminate]) == 1;
  }

  lemma TakeKeeps(s: Pool, w: nat)
    requires Inv(s) && Enabled(Take(w), s)
    ensures Inv(Apply(Take(w), s))
  {
    var t, x := Apply(Take(w), s), Taken(w, s.queue[0]);
    Snoc(s.removed, x);
    FirstOver(Msgs(s.removed), s.queue);
    assert QueueOk(t);
    TakeKeepsWorkers(s, w);
    assert ClosingOk(t);
  }

  lemma FirstOver(a: seq<Msg>, b: seq<Msg>)
    requires b != []
    ensures a + b == (a + [b[0]]) + b[1..]
  {
  }

  lemma TakeKeepsWorkers(s: Pool, w: nat)
    requires WorkersOk(s) && ProcessedOk(s) && Enabled(Take(w), s) && |s.queue| <= s.capacity
    ensures WorkersOk(Apply(Take(w), s)) && ProcessedOk(Apply(Take(w), s))
  {
    var t := Apply(Take(w), s);
    forall v: nat | v < |t.workers| ensures WorkerOk(t, v) {
      TakeKeepsWorker(s, w, v);
    }
    forall k: nat ensures Finished(t, k) <==> Finished(s, k) {
      if k < |s.removed| { assert t.removed[k] == s.removed[k]; }
    }
  }

  lemma TakeKeepsWorker(s: Pool, w: nat, v: nat)
    requires WorkersOk(s) && Enabled(Take(w), s) && |s.queue| <= s.capacity && v < |s.workers|
    ensures WorkerOk(Apply(Take(w), s), v)
  {
    assert WorkerOk(s, v);
    if v == w {
      TakerIsBusy(s, Apply(Take(w), s), w, s.queue[0]);
    } else {
      OtherWorkerKeeps(s, Apply(Take(w), s), v, Taken(w, s.queue[0]));
    }
  }

  lemma TakerIsBusy(s: Pool, t: Pool, w: nat, m: Msg)
    requires w < |s.workers| && WorkerOk(s, w) && s.workers[w] == Idle
    requires t.removed == s.removed + [Taken(w, m)] && w < |t.workers| && t.workers[w] == Busy(|s.removed|)
    ensures WorkerOk(t, w)
  {
    TakenBySnoc(s.removed, Taken(w, m), w);
    assert t.removed[|s.removed|] == Taken(w, m);
  }

  lemma OtherWorkerKeeps(s: Pool, t: Pool, v: nat, x: Removal)
    requires v < |s.workers| && WorkerOk(s, v) && x.Taken? && x.worker != v
    requires t.removed == s.removed + [x] && v < |t.workers| && t.workers[v] == s.workers[v]
    ensures WorkerOk(t, v)
  {
    TakenBySnoc(s.removed, x, v);
    if s.workers[v].Busy? {
      assert t.removed[s.workers[v].at] == s.removed[s.workers[v].at];
    }
  }

  lemma HandleKeeps(s: Pool, w: nat)
    requires Inv(s) && Enabled(Handle(w), s)
    ensures Inv(Apply(Handle(w), s))
  {
    var t := Apply(Handle(w), s);
    forall v: nat | v < |t.workers| ensures WorkerOk(t, v) {
      assert WorkerOk(s, w) && WorkerOk(s, v);
    }
    HandleKeepsProcessed(s, w);
  }

  lemma HandleKeepsProcessed(s: Pool, w: nat)
    requires WorkersOk(s) && ProcessedOk(s) && |s.queue| <= s.capacity && Enabled(Handle(w), s)
    ensures ProcessedOk(Apply(Handle(w), s))
  {
    var t, k := Apply(Handle(w), s), s.workers[w].at;
    assert WorkerOk(s, w) && !Finished(s, k);
    assert forall j: nat :: Finished(t, j) <==> Finished(s, j) || (j == k && s.removed[k].msg != Terminate);
  }

  /** Every step of every thread keeps the invariant. */
  lemma StepKeepsInv(s: Pool, a: Action)
    requires Inv(s) && Enabled(a, s)
    ensures Inv(Apply(a, s))
  {
    match a
    case Post(msg, block) => PostKeeps(s, msg, block);
    case Take(w) => TakeKeeps(s, w);
    case Handle(w) => HandleKeeps(s, w);
    case BeginDestructor =>
      assert forall w: nat :: w < |s.workers| ==> WorkerOk(s, w) ==> WorkerOk(Apply(a, s), w);
    case PostTerminate => PostTerminateKeeps(s);
    case Join =>
      assert forall w: nat :: w < |s.workers| ==> WorkerOk(s, w) ==> WorkerOk(Apply(a, s), w);
  }

  /** The steps lead from one state to the other. */
  predicate Run(s: Pool, steps: seq<Action>, t: Pool)
    decreases |steps|
  {
    if steps == [] then t == s
    else Enabled(steps[0], s) && |s.queue| <= s.capacity && Run(Apply(steps[0], s), steps[1..], t)
  }

  /** Everything that any interleaving can reach satisfies the invariant. */
  lemma {:induction false} RunKeepsInv(s: Pool, steps: seq<Action>, t: Pool)
    requires Inv(s) && Run(s, steps, t)
    ensures Inv(t) && t.capacity == s.capacity && |t.workers| == |s.workers|
    decreases |steps|
  {
    if steps != [] {
      StepKeepsInv(s, steps[0]);
      RunKeepsInv(Apply(steps[0], s), steps[1..], t);
    }
  }

  function PostedNow(a: Action): seq<Msg>
  {
    match a
    case Post(msg, block) => [msg]
    case PostTerminate => [Terminate]
    case _ => []
  }

  /** The messages posted by a run, the destructor's among them. */
  function PostedBy(steps: seq<Action>): seq<Msg>
  {
    if steps == [] then [] else PostedNow(steps[0]) + PostedBy(steps[1..])
  }

  /** How many messages are posted after the destructor has begun, its own aside. */
  function LatePosts(steps: seq<Action>, closing: bool): nat
  {
    if steps == [] then 0
    else (if closing && steps[0].Post? then 1 else 0) + LatePosts(steps[1..], closing || steps[0].BeginDestructor?)
  }

  lemma StepPosts(s: Pool, a: Action)
    requires Enabled(a, s) && |s.queue| <= s.capacity
    ensures var t := Apply(a, s);
            && t.posted == s.posted + PostedNow(a)
            && t.late == s.late + (if s.phase != Alive && a.Post? then 1 else 0)
            && (t.phase != Alive <==> s.phase != Alive || a.BeginDestructor?)
  {
    match a
    case Post(msg, block) =>
    case Take(w) =>
    case Handle(w) =>
    case BeginDestructor =>
    case PostTerminate =>
    case Join =>
  }

  lemma {:induction false} RunPosts(s: Pool, steps: seq<Action>, t: Pool)
    requires Run(s, steps, t)
    ensures t.posted == s.posted + PostedBy(steps) && t.late == s.late + LatePosts(steps, s.phase != Alive)
    decreases |steps|
  {
    if steps != [] {
      var a := steps[0];
      var next := Apply(a, s);
      StepPosts(s, a);
      RunPosts(next, steps[1..], t);
      MorePosts(s.posted, PostedNow(a), PostedBy(steps[1..]));
    }
  }

  lemma MorePosts(a: seq<Msg>, b: seq<Msg>, c: seq<Msg>)
    ensures (a + b) + c == a + (b + c)
  {
  }

  /** Where the k-th posted message is. */
  predicate Accounted(t: Pool, k: nat)
    requires k < |t.posted|
  {
    if k >= |t.removed| then k - |t.removed| < |t.queue| && t.queue[k - |t.removed|] == t.posted[k]
    else
      && t.removed[k].msg == t.posted[k]
      && (t.removed[k].Taken? ==>
            && t.removed[k].worker < |t.workers|
            && ((t.workers[t.removed[k].worker] == Busy(k)) || t.posted[k] == Terminate || k in t.processed))
  }

  /**
   * In every reachable state each message that was posted is still queued, was overrun, or was taken
   * by a worker, which holds it or has processed it, once; the queue and the counter agree.
   */
  lemma Conservation(s: Pool, steps: seq<Action>, t: Pool)
    requires Inv(s) && Run(s, steps, t)
    ensures t.posted == s.posted + PostedBy(steps) == Msgs(t.removed) + t.queue && t.overrun == DropCount(t.removed)
    ensures forall k: nat :: k < |t.posted| ==> Accounted(t, k)
    ensures forall k: nat :: k in t.processed ==> k < |t.removed| && t.removed[k].Taken?
    ensures forall i, j :: 0 <= i < j < |t.processed| ==> t.processed[i] != t.processed[j]
  {
    RunKeepsInv(s, steps, t);
    RunPosts(s, steps, t);
    forall k: nat | k < |t.posted| ensures Accounted(t, k) {
      EachAccounted(t, k);
    }
    ProcessedWereTaken(t);
  }

  lemma EachAccounted(t: Pool, k: nat)
    requires Inv(t) && k < |t.posted|
    ensures Accounted(t, k)
  {
    if k < |t.removed| {
      assert t.posted[k] == Msgs(t.removed)[k] == t.removed[k].msg;
      if t.removed[k].Taken? && t.posted[k] != Terminate {
        assert Finished(t, k) || t.workers[t.removed[k].worker] == Busy(k);
      }
    }
  }

  lemma ProcessedWereTaken(t: Pool)
    requires ProcessedOk(t)
    ensures forall k: nat :: k in t.processed ==> k < |t.removed| && t.removed[k].Taken?
  {
    assert forall k: nat :: k in t.processed ==> Finished(t, k);
  }

  predicate Blocking(steps: seq<Action>) { forall i :: 0 <= i < |steps| && steps[i].Post? ==> steps[i].block }

  /** With the blocking policy alone nothing is ever dropped. */
  lemma {:induction false} BlockingDropsNothing(s: Pool, steps: seq<Action>, t: Pool)
    requires Inv(s) && Run(s, steps, t) && Blocking(steps) && s.overrun == 0
    ensures t.overrun == 0 && forall k :: 0 <= k < |t.removed| ==> t.removed[k].Taken?
    decreases |steps|
  {
    if steps == [] {
      NoneDropped(s.removed);
    } else {
      var a := steps[0];
      StepKeepsInv(s, a);
      assert a.Post? ==> a.block;
      BlockingDropsNothing(Apply(a, s), steps[1..], t);
    }
  }

  lemma {:induction false} NoneDropped(r: seq<Removal>)
    requires DropCount(r) == 0
    ensures forall k :: 0 <= k < |r| ==> r[k].Taken?
  {
    if r != [] { NoneDropped(r[..|r| - 1]); }
  }

  /**
   * Once all workers have stopped, each has taken exactly one of the destructor's terminates, none of
   * which was overrun, and no earlier message waits: if no one posted late the queue is empty, and what
   * was taken has been processed.
   */
  lemma StoppedMeansDrained(t: Pool)
    requires Inv(t) && AllStopped(t)
    ensures t.sent == |t.workers| && DroppedTerminates(t.removed) == 0 && Terminates(t.queue) == 0
    ensures forall w: nat :: w < |t.workers| ==> TakenBy(t.removed, w) == 1
    ensures forall k: nat :: k < |t.removed| && t.removed[k].Taken? && t.removed[k].msg != Terminate ==>
              k in t.processed
    ensures t.late == 0 ==> t.queue == []
  {
    AllTerminatesTaken(t);
    forall k: nat | k < |t.removed| && t.removed[k].Taken? && t.removed[k].msg != Terminate ensures k in t.processed {
      assert Finished(t, k);
    }
    assert t.queue != [] ==> t.queue[|t.queue| - 1] != Terminate;
    assert t.queue != [] ==> t.posted[|t.posted| - 1] == t.queue[|t.queue| - 1];
  }

  lemma AllTerminatesTaken(t: Pool)
    requires Inv(t) && AllStopped(t)
    ensures t.sent == |t.workers| && DroppedTerminates(t.removed) == 0 && Terminates(t.queue) == 0
    ensures forall w: nat :: w < |t.workers| ==> TakenBy(t.removed, w) == 1
  {
    var n := |t.workers|;
    forall w: nat | w < n ensures TakenBy(t.removed, w) == 1 {
      assert WorkerOk(t, w);
    }
    AllTookOne(t.removed, n);
    TerminatesRemoved(t.removed, n);
    TerminatesConcat(Msgs(t.removed), t.queue);
  }

  /** The whole life of a pool. */
  lemma JoinedPool(capacity: nat, threads: nat, steps: seq<Action>, t: Pool)
    requires var s := Create(capacity, threads); s.Some? && Run(s.value, steps, t) && t.phase == Joined
    ensures LatePosts(steps, false) == 0 ==> t.queue == []
    ensures forall w: nat :: w < threads ==> TakenBy(t.removed, w) == 1
    ensures forall k: nat :: k < |t.removed| && t.removed[k].msg != Terminate ==>
              t.removed[k].Dropped? || k in t.processed
  {
    CreateInv(capacity, threads);
    RunKeepsInv(Create(capacity, threads).value, steps, t);
    RunPosts(Create(capacity, threads).value, steps, t);
    StoppedMeansDrained(t);
  }

  /** There is room for the destructor's messages, and none of them was overrun. */
  predicate Unharmed(s: Pool) { s.capacity > 0 && DroppedTerminates(s.removed) == 0 }

  /** A post overruns a terminate if it does not wait, there is no room, and a terminate is the oldest message. */
  predicate OverrunsTerminate(a: Action, s: Pool)
  {
    a.Post? && !a.block && |s.queue| == s.capacity > 0 && s.queue[0] == Terminate
  }

  /** Nothing else ever overruns one. */
  lemma DroppedExactly(s: Pool, a: Action)
    requires Inv(s) && Enabled(a, s)
    ensures DroppedTerminates(Apply(a, s).removed)
            == DroppedTerminates(s.removed) + if OverrunsTerminate(a, s) then 1 else 0
  {
    match a
    case Post(msg, block) => PostDrops(s, msg, block);
    case Take(w) => Snoc(s.removed, Taken(w, s.queue[0]));
    case Handle(w) =>
    case BeginDestructor =>
    case PostTerminate => PushDrops(s, Terminate);
    case Join =>
  }

  lemma PostDrops(s: Pool, m: Msg, block: bool)
    requires QueueOk(s) && Enabled(Post(m, block), s)
    ensures DroppedTerminates(Push(s, m).removed)
            == DroppedTerminates(s.removed) + if OverrunsTerminate(Post(m, block), s) then 1 else 0
  {
    PushDrops(s, m);
  }

  lemma PushDrops(s: Pool, m: Msg)
    requires QueueOk(s)
    ensures DroppedTerminates(Push(s, m).removed)
            == DroppedTerminates(s.removed)
               + if |s.queue| == s.capacity && (if s.queue == [] then m else s.queue[0]) == Terminate then 1 else 0
  {
    var lost := Overrun(s.queue, s.capacity, m);
    if lost == [] {
      assert s.removed + Drops(lost) == s.removed;
    } else {
      assert Drops(lost) == [Dropped(lost[0])];
      Snoc(s.removed, Dropped(lost[0]));
    }
  }

  /** How often a run overruns a terminate. */
  function Overruns(s: Pool, steps: seq<Action>): nat
    decreases |steps|
  {
    if steps == [] || !Enabled(steps[0], s) || |s.queue| > s.capacity then 0
    else (if OverrunsTerminate(steps[0], s) then 1 else 0) + Overruns(Apply(steps[0], s), steps[1..])
  }

  lemma {:induction false} RunDrops(s: Pool, steps: seq<Action>, t: Pool)
    requires Inv(s) && Run(s, steps, t)
    ensures DroppedTerminates(t.removed) == DroppedTerminates(s.removed) + Overruns(s, steps)
    decreases |steps|
  {
    if steps != [] {
      StepKeepsInv(s, steps[0]);
      DroppedExactly(s, steps[0]);
      RunDrops(Apply(steps[0], s), steps[1..], t);
    }
  }

  lemma StoppedIsUnharmed(t: Pool)
    requires Inv(t) && AllStopped(t)
    ensures Unharmed(t)
  {
    StoppedMeansDrained(t);
  }

  /** Otherwise its workers never all stop, whatever happens. */
  lemma StrandedForEver(s: Pool, steps: seq<Action>, t: Pool)
    requires Inv(s) && Run(s, steps, t) && !Unharmed(s)
    ensures !AllStopped(t) && t.phase != Joined && !Unharmed(t)
  {
    RunKeepsInv(s, steps, t);
    RunDrops(s, steps, t);
    if AllStopped(t) { StoppedIsUnharmed(t); }
  }

  /** One late message with the overrun policy is enough for that. */
  lemma LatePostCanStrand() returns (s: Pool, t: Pool)
    ensures Create(1, 1) == Some(s) && Run(s, [BeginDestructor, PostTerminate, Post(Flush, false)], t)
    ensures t.late == 1 && DroppedTerminates(t.removed) == 1
  {
    s := Create(1, 1).value;
    assert s.workers == [Idle];
    var closing := s.(phase := Closing);
    var full := closing.(queue := [Terminate], posted := [Terminate], sent := 1);
    PushIntoRoom(closing, Terminate);
    t := full.(queue := [Flush], posted := [Terminate, Flush], overrun := 1,
               removed := [Dropped(Terminate)], late := 1);
    PushIntoFull(full, Flush);
    Snoc([], Dropped(Terminate));
    assert [] + [Dropped(Terminate)] == [Dropped(Terminate)];
    ThreeSteps(s, BeginDestructor, closing, PostTerminate, full, Post(Flush, false), t);
  }

  lemma PushIntoRoom(s: Pool, m: Msg)
    requires s.capacity == 1 && s.queue == [] && s.posted == [] && s.removed == []
    ensures Push(s, m) == s.(queue := [m], posted := [m])
  {
    assert s.removed + Drops(Overrun(s.queue, s.capacity, m)) == [];
  }

  lemma PushIntoFull(s: Pool, m: Msg)
    requires s.capacity == 1 && |s.queue| == 1 && s.posted == s.queue && s.removed == [] && s.overrun == 0
    ensures Push(s, m) == s.(queue := [m], posted := [s.queue[0], m], overrun := 1, removed := [Dropped(s.queue[0])])
  {
    var lost := Overrun(s.queue, s.capacity, m);
    assert Drops(lost) == [Dropped(s.queue[0])] && (s.queue + [m])[1..] == [m] && s.queue == [s.queue[0]];
    assert s.posted + [m] == [s.queue[0], m] && s.removed + Drops(lost) == [Dropped(s.queue[0])];
  }

  lemma ThreeSteps(s: Pool, a: Action, s1: Pool, b: Action, s2: Pool, c: Action, t: Pool)
    requires Enabled(a, s) && |s.queue| <= s.capacity && s1 == Apply(a, s)
    requires Enabled(b, s1) && |s1.queue| <= s1.capacity && s2 == Apply(b, s1)
    requires Enabled(c, s2) && |s2.queue| <= s2.capacity && t == Apply(c, s2)
    ensures Run(s, [a, b, c], t)
  {
    assert [a, b, c][1..] == [b, c] && [b, c][1..] == [c];
    assert Run(s2, [c], t);
    assert Run(s1, [b, c], t);
  }

  /** Without any room the destructor's first message waits for ever. */
  lemma NoCapacityNeverJoins(s: Pool, steps: seq<Action>, t: Pool)
    requires Inv(s) && Run(s, steps, t) && s.capacity == 0
    ensures t.sent == 0 && t.phase != Joined
  {
    RunKeepsInv(s, steps, t);
    StrandedForEver(s, steps, t);
  }

  /** The steps of the workers and of the destructor. */
  predicate Internal(a: Action) { !a.Post? && !a.BeginDestructor? }

  function Held(workers: seq<Worker>): nat
  {
    if workers == [] then 0 else Held(workers[..|workers| - 1]) + if workers[|workers| - 1].Busy? then 1 else 0
  }

  /** How many steps a closing pool can still take when no one else posts. */
  function StepsLeft(s: Pool): int
  {
    3 * (|s.workers| - s.sent) + 2 * |s.queue| + Held(s.workers) + if s.phase == Joined then 0 else 1
  }

  /** No worker can go on, and neither can the destructor. */
  ghost predicate Quiet(s: Pool) { forall a :: Internal(a) ==> !Enabled(a, s) }

  /**
   * A closing pool that has room and has overrun no terminate is never stuck: some worker or the destructor
   * can step, and each such step brings the end nearer.
   */
  lemma DestructorFinishes(s: Pool)
    requires Inv(s) && s.phase == Closing && Unharmed(s)
    ensures !Quiet(s) && StepsLeft(s) > 0
    ensures forall a :: Internal(a) && Enabled(a, s) ==> StepsLeft(Apply(a, s)) < StepsLeft(s) && Unharmed(Apply(a, s))
  {
    var a := SomeStep(s);
    assert Internal(a) && Enabled(a, s);
    forall a | Internal(a) && Enabled(a, s)
      ensures StepsLeft(Apply(a, s)) < StepsLeft(s) && Unharmed(Apply(a, s))
    {
      ClosingStep(s, a);
    }
  }

  predicate AllInternal(steps: seq<Action>) { forall i :: 0 <= i < |steps| ==> Internal(steps[i]) }

  /**
   * When only workers and destructor go on, their steps are bounded in number; and when none is left the pool
   * is joined if and only if it had room and had overrun no terminate. Without late posts its queue is empty then.
   */
  lemma {:induction false} ClosingEnds(s: Pool, steps: seq<Action>, t: Pool)
    requires Inv(s) && s.phase != Alive && Run(s, steps, t) && AllInternal(steps)
    ensures |steps| + StepsLeft(t) <= StepsLeft(s)
    ensures Quiet(t) ==> (t.phase == Joined <==> Unharmed(s))
    ensures t.phase == Joined && s.late == 0 ==> t.queue == []
    decreases |steps|
  {
    if steps == [] {
      NothingLeftToDo(s);
    } else {
      var a := steps[0];
      assert Internal(a);
      ClosingStep(s, a);
      assert forall i :: 0 <= i < |steps[1..]| ==> steps[1..][i] == steps[i + 1];
      ClosingEnds(Apply(a, s), steps[1..], t);
    }
  }

  lemma NothingLeftToDo(s: Pool)
    requires Inv(s) && s.phase != Alive
    ensures Quiet(s) ==> (s.phase == Joined <==> Unharmed(s))
    ensures s.phase == Joined && s.late == 0 ==> s.queue == []
  {
    if s.phase == Joined {
      StoppedMeansDrained(s);
    } else if Unharmed(s) {
      DestructorFinishes(s);
    }
  }

  lemma ClosingStep(s: Pool, a: Action)
    requires Inv(s) && s.phase != Alive && Internal(a) && Enabled(a, s)
    ensures var t := Apply(a, s);
            && Inv(t) && t.phase != Alive && t.late == s.late && StepsLeft(t) < StepsLeft(s)
            && (Unharmed(t) <==> Unharmed(s))
  {
    StepKeepsInv(s, a);
    StepCounts(s, a);
    DroppedExactly(s, a);
    InternalKeeps(s, a);
  }

  lemma InternalKeeps(s: Pool, a: Action)
    requires |s.queue| <= s.capacity && s.phase != Alive && Internal(a) && Enabled(a, s)
    ensures var t := Apply(a, s);
            t.phase != Alive && t.late == s.late && t.capacity == s.capacity && !OverrunsTerminate(a, s)
  {
  }

  lemma StepCounts(s: Pool, a: Action)
    requires Inv(s) && s.phase == Closing && Internal(a) && Enabled(a, s)
    ensures StepsLeft(Apply(a, s)) < StepsLeft(s)
  {
    match a
    case Take(w) => HeldUpdate(s.workers, w, Busy(|s.removed|));
    case Handle(w) => HeldUpdate(s.workers, w, Apply(a, s).workers[w]);
    case PostTerminate =>
    case Join =>
  }

  lemma {:induction false} HeldUpdate(workers: seq<Worker>, w: nat, x: Worker)
    requires w < |workers|
    ensures Held(workers[w := x])
            == Held(workers) + (if x.Busy? then 1 else 0) - (if workers[w].Busy? then 1 else 0)
  {
    var n := |workers| - 1;
    if w == n {
      assert workers[w := x][..n] == workers[..n];
    } else {
      assert workers[w := x][..n] == workers[..n][w := x];
      HeldUpdate(workers[..n], w, x);
    }
  }

  /** Some way to go on ends with the destructor done. */
  ghost predicate CanBeJoined(s: Pool)
  {
    exists steps: seq<Action>, t: Pool :: Run(s, steps, t) && t.phase == Joined
  }

  lemma {:induction false} ClosingCanBeJoined(s: Pool) returns (steps: seq<Action>, t: Pool)
    requires Inv(s) && s.phase != Alive && Unharmed(s)
    ensures Run(s, steps, t) && t.phase == Joined
    decreases StepsLeft(s)
  {
    if s.phase == Joined {
      steps, t := [], s;
    } else {
      var a := SomeStep(s);
      ClosingStep(s, a);
      steps, t := ClosingCanBeJoined(Apply(a, s));
      StepFirst(s, a, steps, t);
      steps := [a] + steps;
    }
  }

  lemma StepFirst(s: Pool, a: Action, steps: seq<Action>, t: Pool)
    requires Enabled(a, s) && |s.queue| <= s.capacity && Run(Apply(a, s), steps, t)
    ensures Run(s, [a] + steps, t)
  {
    assert ([a] + steps)[0] == a && ([a] + steps)[1..] == steps;
  }

  /** A pool can still be joined if and only if it has room and has overrun no terminate. */
  lemma JoinableIff(s: Pool)
    requires Inv(s)
    ensures CanBeJoined(s) <==> Unharmed(s)
  {
    if Unharmed(s) {
      if s.phase == Alive {
        var closing := Apply(BeginDestructor, s);
        StepKeepsInv(s, BeginDestructor);
        var steps, t := ClosingCanBeJoined(closing);
        StepFirst(s, BeginDestructor, steps, t);
      } else {
        var steps, t := ClosingCanBeJoined(s);
      }
    } else {
      forall steps: seq<Action>, t: Pool | Run(s, steps, t) ensures t.phase != Joined {
        StrandedForEver(s, steps, t);
      }
    }
  }

  /** So after any run from construction it can, exactly if the run overran no terminate and there is room. */
  lemma CanBeJoinedIff(capacity: nat, threads: nat, steps: seq<Action>, t: Pool)
    requires var s := Create(capacity, threads); s.Some? && Run(s.value, steps, t)
    ensures CanBeJoined(t) <==> capacity > 0 && Overruns(Create(capacity, threads).value, steps) == 0
  {
    var s := Create(capacity, threads).value;
    CreateInv(capacity, threads);
    RunKeepsInv(s, steps, t);
    RunDrops(s, steps, t);
    JoinableIff(t);
  }

  lemma SomeStep(s: Pool) returns (a: Action)
    requires Inv(s) && s.phase == Closing && Unharmed(s)
    ensures Internal(a) && Enabled(a, s)
  {
    if w: nat :| w < |s.workers| && s.workers[w].Busy? {
      assert WorkerOk(s, w);
      return Handle(w);
    }
    if AllStopped(s) {
      StoppedMeansDrained(s);
      return Join;
    }
    var w: nat :| w < |s.workers| && s.workers[w] != Stopped;
    if s.queue != [] { return Take(w); }
    OneMoreTerminate(s, w);
    return PostTerminate;
  }

  /** With an empty queue and an idle worker the destructor has not sent all its messages. */
  lemma OneMoreTerminate(s: Pool, w: nat)
    requires Inv(s) && Unharmed(s) && s.queue == [] && w < |s.workers| && s.workers[w] == Idle
    ensures s.sent < |s.workers|
  {
    AtMostOneEach(s, w);
    SomeoneTookNone(s.removed, |s.workers|, w);
    TerminatesRemoved(s.removed, |s.workers|);
    assert s.posted == Msgs(s.removed);
  }

  lemma AtMostOneEach(s: Pool, w: nat)
    requires WorkersOk(s) && w < |s.workers| && s.workers[w] == Idle
    ensures TakenBy(s.removed, w) == 0 && forall v: nat :: v < |s.workers| ==> TakenBy(s.removed, v) <= 1
  {
    assert WorkerOk(s, w);
    forall v: nat | v < |s.workers| ensures TakenBy(s.removed, v) <= 1 {
      assert WorkerOk(s, v);
    }
  }

  lemma SomeoneTookNone(r: seq<Removal>, n: nat, w: nat)
    requires w < n && TakenBy(r, w) == 0 && forall v: nat :: v < n ==> TakenBy(r, v) <= 1
    ensures TakenByFirst(r, n) < n
  {
    AllTookOne(r, n);
    assert TakenBy(r, w) != 1;
  }

  /** What a worker alone handles before it stops: the messages before the first terminate. */
  function BeforeTerminate(ms: seq<Msg>): seq<Msg>
  {
    if ms == [] || ms[0] == Terminate then [] else [ms[0]] + BeforeTerminate(ms[1..])
  }

  /** The state of that loop: what it started with, has handled and has left. */
  predicate LoopOk(active: bool, start: seq<Msg>, handled: seq<Msg>, left: seq<Msg>)
  {
    if active then
      Terminate in left && start == handled + left && handled + BeforeTerminate(left) == BeforeTerminate(start)
    else
      handled == BeforeTerminate(start) && start == handled + [Terminate] + left
  }

  lemma LoopStep(start: seq<Msg>, handled: seq<Msg>, left: seq<Msg>)
    requires LoopOk(true, start, handled, left)
    ensures left != []
    ensures left[0] == Terminate ==> LoopOk(false, start, handled + [], left[1..])
    ensures left[0] != Terminate ==> LoopOk(true, start, handled + [left[0]], left[1..])
  {
    assert left == [left[0]] + left[1..] && handled + [] == handled;
    if left[0] != Terminate {
      assert handled + ([left[0]] + BeforeTerminate(left[1..])) == (handled + [left[0]]) + BeforeTerminate(left[1..]);
    }
  }

  /** The pool's code on its queue; every call is one or more of the steps above. */
  class Core {
    const q: BlockingQueue.Queue<Msg>

    ghost predicate Valid()
      reads this, q, q.q, q.q.v
    {
      q.Valid()
    }

    constructor (maxItems: nat)
      ensures Valid() && q.Items() == [] && q.Capacity() == maxItems
    {
      q := new BlockingQueue.Queue<Msg>(maxItems);
    }

    /** Posting is the step Post, or PostTerminate; not done while that is not enabled. */
    method PostAsyncMsg(msg: Msg, block: bool, ghost s: Pool) returns (done: bool)
      requires Valid() && s.queue == q.Items() && s.capacity == q.Capacity() && s.overrun == q.q.overrunCounter
      modifies q.q, q.q.v
      ensures Valid() && q.q.v == old(q.q.v) && q.Capacity() == s.capacity
      ensures done <==> (block ==> |s.queue| < s.capacity)
      ensures done ==> q.Items() == Push(s, msg).queue && q.q.overrunCounter == Push(s, msg).overrun
      ensures !done ==> q.Items() == s.queue && q.q.overrunCounter == s.overrun
    {
      if block {
        done := q.Enqueue(msg);
      } else {
        q.EnqueueNowait(msg);
        done := true;
      }
    }

    /** Takes a message and handles it, or waits in vain; inactive after a terminate. */
    method ProcessNextMsg() returns (active: bool, handled: seq<Msg>)
      requires Valid()
      modifies q.q
      ensures Valid() && q.q.v == old(q.q.v) && q.Capacity() == old(q.Capacity())
      ensures old(q.Items()) == [] ==> q.Items() == [] && active && handled == []
      ensures old(q.Items()) != [] ==> q.Items() == old(q.Items())[1..]
      ensures old(q.Items()) != [] ==> (active <==> old(q.Items())[0] != Terminate)
      ensures old(q.Items()) != [] ==> handled == if active then [old(q.Items())[0]] else []
    {
      handled := [];
      var item := q.DequeueFor();
      if item.None? { return true, handled; }
      match item.value {
        case Log(text) => return true, [item.value];
        case Flush => return true, [item.value];
        case Terminate => return false, handled;
      }
    }

    /** One worker alone: handles the messages up to the first terminate, in order, and takes that one too. */
    method WorkerLoop() returns (handled: seq<Msg>)
      requires Valid() && Terminate in q.Items()
      modifies q.q
      ensures Valid() && handled == BeforeTerminate(old(q.Items()))
      ensures old(q.Items()) == handled + [Terminate] + q.Items()
    {
      handled := [];
      var active := true;
      ghost var start := q.Items();
      while active
        invariant Valid() && q.q.v == old(q.q.v)
        invariant LoopOk(active, start, handled, q.Items())
        decreases |q.Items()|, active
      {
        LoopStep(start, handled, q.Items());
        var more: seq<Msg>;
        active, more := ProcessNextMsg();
        handled := handled + more;
      }
    }
  }
}
