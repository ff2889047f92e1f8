/** ProcessAsync: one goroutine a block, a wait group, a closer and a receiver on an unbuffered
    channel, as an interleaving of their steps. The outcome of each block is a parameter:
    None is an error. Every block is taken to return. */
module ProcessAsync {
  import opened Idql

  datatype Worker<T> = Idle | Running | Sending(value: T) | Returning | Finished

  /** The calling goroutine: for each input wg.Add then go, then start the closer, then receive. */
  datatype Caller = Adding(next: nat) | Launching(next: nat) | StartingCloser | Receiving | Done

  datatype Closer = NotStarted | Waiting | Closing | Closed

  datatype State<T> = State(
    caller: Caller, workers: seq<Worker<T>>, closer: Closer,
    counter: int, open: bool, panicked: bool, results: seq<T>)

  datatype Action =
    | Add | Launch | EndLoop | StartCloser
    | BlockReturns(i: nat)
    | HandOver(i: nat)         // an unbuffered send meets the receive
    | SendOnClosed(i: nat)     // the runtime panics
    | WorkerDone(i: nat)       // deferred wg.Done
    | WaitReturns | Close
    | ReceiveEnds              // the range loop sees the closed channel

  function Init<T>(n: nat): State<T> {
    State(Adding(0), seq(n, i => Idle), NotStarted, 0, true, false, [])
  }

  predicate Enabled<T>(s: State<T>, a: Action) {
    && !s.panicked
    && match a
       case Add => s.caller.Adding? && s.caller.next < |s.workers|
       case Launch => s.caller.Launching? && s.caller.next < |s.workers|
       case EndLoop => s.caller.Adding? && s.caller.next == |s.workers|
       case StartCloser => s.caller.StartingCloser?
       case BlockReturns(i) => i < |s.workers| && s.workers[i].Running?
       case HandOver(i) => i < |s.workers| && s.workers[i].Sending? && s.caller.Receiving? && s.open
       case SendOnClosed(i) => i < |s.workers| && s.workers[i].Sending? && !s.open
       case WorkerDone(i) => i < |s.workers| && s.workers[i].Returning?
       case WaitReturns => s.closer.Waiting? && s.counter == 0
       case Close => s.closer.Closing?
       case ReceiveEnds => s.caller.Receiving? && !s.open
  }

  function Next<T>(s: State<T>, a: Action, outcomes: seq<Option<T>>): State<T>
    requires Enabled(s, a) && |outcomes| == |s.workers|
  {
    match a
    case Add => s.(counter := s.counter + 1, caller := Launching(s.caller.next))
    case Launch => s.(workers := s.workers[s.caller.next := Running], caller := Adding(s.caller.next + 1))
    case EndLoop => s.(caller := StartingCloser)
    case StartCloser => s.(closer := Waiting, caller := Receiving)
    case BlockReturns(i) =>
      s.(workers := s.workers[i := match outcomes[i] case Some(v) => Sending(v) case None => Returning])
    case HandOver(i) => s.(workers := s.workers[i := Returning], results := s.results + [s.workers[i].value])
    case SendOnClosed(_) => s.(panicked := true)
    case WorkerDone(i) =>
      s.(workers := s.workers[i := Finished], counter := s.counter - 1, panicked := s.counter - 1 < 0)
    case WaitReturns => s.(closer := Closing)
    case Close => s.(closer := Closed, open := false, panicked := !s.open)
    case ReceiveEnds => s.(caller := Done)
  }

  /** The runtime panics on a send to a closed channel, a second close, and a counter below zero. */
  lemma PanicsExactly<T>(s: State<T>, a: Action, outcomes: seq<Option<T>>)
    requires Enabled(s, a) && |outcomes| == |s.workers|
    ensures Next(s, a, outcomes).panicked <==>
      a.SendOnClosed? || (a.Close? && !s.open) || (a.WorkerDone? && s.counter <= 0)
  {}

  // ----- invariant

  function Spawned<T>(s: State<T>): nat {
    match s.caller
    case Adding(k) => k
    case Launching(k) => k
    case _ => |s.workers|
  }

  predicate Active<T>(w: Worker<T>) {
    w.Running? || w.Sending? || w.Returning?
  }

  function CountActive<T>(ws: seq<Worker<T>>): nat {
    if ws == [] then 0 else (if Active(ws[0]) then 1 else 0) + CountActive(ws[1..])
  }

  /** The values that have left their workers. */
  function Delivered<T>(ws: seq<Worker<T>>, outcomes: seq<Option<T>>): multiset<T>
    requires |ws| == |outcomes|
  {
    if ws == [] then multiset{}
    else Share(ws[0], outcomes[0]) + Delivered(ws[1..], outcomes[1..])
  }

  function Share<T>(w: Worker<T>, outcome: Option<T>): multiset<T> {
    if (w.Returning? || w.Finished?) && outcome.Some? then multiset{outcome.value} else multiset{}
  }

  function Successes<T>(outcomes: seq<Option<T>>): multiset<T> {
    if outcomes == [] then multiset{}
    else (if outcomes[0].Some? then multiset{outcomes[0].value} else multiset{}) + Successes(outcomes[1..])
  }

  predicate AllFinished<T>(s: State<T>) {
    forall i :: 0 <= i < |s.workers| ==> s.workers[i].Finished?
  }

  predicate Invariant<T(==)>(s: State<T>, outcomes: seq<Option<T>>) {
    Orderly(s, outcomes) && ResultsMatch(s, outcomes)
  }

  predicate ResultsMatch<T(==)>(s: State<T>, outcomes: seq<Option<T>>) {
    |s.workers| == |outcomes| && multiset(s.results) == Delivered(s.workers, outcomes)
  }

  /** The control part: who can be where, and what the counter counts. */
  predicate Orderly<T(==)>(s: State<T>, outcomes: seq<Option<T>>) {
    && !s.panicked
    && |s.workers| == |outcomes|
    && Spawned(s) <= |s.workers|
    && (s.caller.Launching? ==> s.caller.next < |s.workers|)
    && (forall i :: 0 <= i < |s.workers| ==> (s.workers[i].Idle? <==> i >= Spawned(s)))
    && (forall i :: 0 <= i < |s.workers| && s.workers[i].Sending? ==> outcomes[i] == Some(s.workers[i].value))
    && s.counter == CountActive(s.workers) + (if s.caller.Launching? then 1 else 0)
    && (s.closer.NotStarted? <==> !s.caller.Receiving? && !s.caller.Done?)
    && (s.open <==> !s.closer.Closed?)
    && (s.closer.Closing? || s.closer.Closed? ==> AllFinished(s))
    && (s.caller.Done? ==> s.closer.Closed?)
  }

  lemma {:induction false} CountUpdate<T>(ws: seq<Worker<T>>, i: nat, w: Worker<T>)
    requires i < |ws|
    ensures CountActive(ws[i := w]) + (if Active(ws[i]) then 1 else 0) == CountActive(ws) + (if Active(w) then 1 else 0)
  {
    if i == 0 {
      assert ws[i := w][1..] == ws[1..];
    } else {
      assert ws[i := w][1..] == ws[1..][i - 1 := w];
      CountUpdate(ws[1..], i - 1, w);
    }
  }

  lemma Exchange<T>(h: multiset<T>, a: multiset<T>, b: multiset<T>, c: multiset<T>, d: multiset<T>)
    requires a + b == c + d
    ensures (h + a) + b == (h + c) + d
  {
    assert (h + a) + b == h + (a + b) && (h + c) + d == h + (c + d);
  }

  lemma Swap<T>(a: multiset<T>, b: multiset<T>, d: multiset<T>)
    ensures (a + d) + b == (b + d) + a
  {}

  lemma Cancel<T>(a: multiset<T>, b: multiset<T>, d: multiset<T>)
    requires a + d == b + d
    ensures a == b
  {
    assert a == (a + d) - d && b == (b + d) - d;
  }

  lemma {:induction false} DeliveredUpdate<T>(ws: seq<Worker<T>>, i: nat, w: Worker<T>, outcomes: seq<Option<T>>)
    requires i < |ws| == |outcomes|
    ensures Delivered(ws[i := w], outcomes) + Share(ws[i], outcomes[i])
         == Delivered(ws, outcomes) + Share(w, outcomes[i])
  {
    var ws' := ws[i := w];
    if i == 0 {
      assert ws'[1..] == ws[1..];
      Swap(Share(w, outcomes[0]), Share(ws[0], outcomes[0]), Delivered(ws[1..], outcomes[1..]));
    } else {
      assert ws'[1..] == ws[1..][i - 1 := w];
      DeliveredUpdate(ws[1..], i - 1, w, outcomes[1..]);
      Exchange(Share(ws[0], outcomes[0]), Delivered(ws'[1..], outcomes[1..]), Share(ws[i], outcomes[i]),
               Delivered(ws[1..], outcomes[1..]), Share(w, outcomes[i]));
    }
  }

  lemma {:induction false} CountZero<T>(ws: seq<Worker<T>>)
    ensures CountActive(ws) == 0 <==> forall i :: 0 <= i < |ws| ==> !Active(ws[i])
  {
    if ws == [] {
    } else {
      CountZero(ws[1..]);
      assert forall i :: 1 <= i < |ws| ==> ws[i] == ws[1..][i - 1];
      assert forall i :: 0 <= i < |ws[1..]| ==> ws[1..][i] == ws[i + 1];
    }
  }

  lemma {:induction false} NothingDelivered<T>(ws: seq<Worker<T>>, outcomes: seq<Option<T>>)
    requires |ws| == |outcomes| && forall i :: 0 <= i < |ws| ==> ws[i].Idle?
    ensures Delivered(ws, outcomes) == multiset{} && CountActive(ws) == 0
  {
    if ws == [] {
    } else {
      NothingDelivered(ws[1..], outcomes[1..]);
    }
  }

  lemma {:induction false} AllDelivered<T>(ws: seq<Worker<T>>, outcomes: seq<Option<T>>)
    requires |ws| == |outcomes| && forall i :: 0 <= i < |ws| ==> ws[i].Finished?
    ensures Delivered(ws, outcomes) == Successes(outcomes)
  {
    if ws == [] {
    } else {
      AllDelivered(ws[1..], outcomes[1..]);
    }
  }

  lemma InitInvariant<T>(outcomes: seq<Option<T>>)
    ensures Invariant(Init(|outcomes|), outcomes)
  {
    var s: State<T> := Init(|outcomes|);
    NothingDelivered(s.workers, outcomes);
  }

  /** The worker a step changes, and what it becomes. */
  function Moved<T>(s: State<T>, a: Action): Option<nat>
    requires Enabled(s, a)
  {
    match a
    case Launch => Some(s.caller.next)
    case BlockReturns(i) => Some(i)
    case HandOver(i) => Some(i)
    case WorkerDone(i) => Some(i)
    case _ => None
  }

  lemma StepOrderly<T>(s: State<T>, a: Action, outcomes: seq<Option<T>>)
    requires Orderly(s, outcomes) && Enabled(s, a)
    ensures Orderly(Next(s, a, outcomes), outcomes)
  {
    CountZero(s.workers);
    var m := Moved(s, a);
    if m.Some? {
      CountUpdate(s.workers, m.value, Next(s, a, outcomes).workers[m.value]);
    }
  }

  lemma SameShare<T>(ws: seq<Worker<T>>, i: nat, w: Worker<T>, outcomes: seq<Option<T>>)
    requires i < |ws| == |outcomes| && Share(w, outcomes[i]) == Share(ws[i], outcomes[i])
    ensures Delivered(ws[i := w], outcomes) == Delivered(ws, outcomes)
  {
    DeliveredUpdate(ws, i, w, outcomes);
    Cancel(Delivered(ws[i := w], outcomes), Delivered(ws, outcomes), Share(w, outcomes[i]));
  }

  lemma HandedOver<T>(ws: seq<Worker<T>>, i: nat, outcomes: seq<Option<T>>)
    requires i < |ws| == |outcomes| && ws[i].Sending? && outcomes[i] == Some(ws[i].value)
    ensures Delivered(ws[i := Returning], outcomes) == Delivered(ws, outcomes) + multiset{ws[i].value}
  {
    DeliveredUpdate(ws, i, Returning, outcomes);
    assert Delivered(ws[i := Returning], outcomes) + multiset{} == Delivered(ws[i := Returning], outcomes);
  }

  lemma HandOverResults<T>(s: State<T>, i: nat, outcomes: seq<Option<T>>)
    requires Invariant(s, outcomes) && Enabled(s, HandOver(i))
    ensures ResultsMatch(Next(s, HandOver(i), outcomes), outcomes)
  {
    HandedOver(s.workers, i, outcomes);
  }

  lemma LaunchResults<T>(s: State<T>, outcomes: seq<Option<T>>)
    requires Invariant(s, outcomes) && Enabled(s, Launch)
    ensures ResultsMatch(Next(s, Launch, outcomes), outcomes)
  {
    SameShare(s.workers, s.caller.next, Running, outcomes);
  }

  lemma WorkerResults<T>(s: State<T>, a: Action, i: nat, outcomes: seq<Option<T>>)
    requires Invariant(s, outcomes) && (a == BlockReturns(i) || a == WorkerDone(i)) && Enabled(s, a)
    ensures ResultsMatch(Next(s, a, outcomes), outcomes)
  {
    SameShare(s.workers, i, Next(s, a, outcomes).workers[i], outcomes);
  }

  lemma StepResults<T>(s: State<T>, a: Action, outcomes: seq<Option<T>>)
    requires Invariant(s, outcomes) && Enabled(s, a)
    ensures ResultsMatch(Next(s, a, outcomes), outcomes)
  {
    match a
    case HandOver(i) => HandOverResults(s, i, outcomes);
    case Launch => LaunchResults(s, outcomes);
    case BlockReturns(i) => WorkerResults(s, a, i, outcomes);
    case WorkerDone(i) => WorkerResults(s, a, i, outcomes);
    case _ =>
  }

  /** Every step of every goroutine keeps the invariant; in particular nothing panics. */
  lemma StepKeeps<T>(s: State<T>, a: Action, outcomes: seq<Option<T>>)
    requires Invariant(s, outcomes) && Enabled(s, a)
    ensures Invariant(Next(s, a, outcomes), outcomes)
  {
    StepOrderly(s, a, outcomes);
    StepResults(s, a, outcomes);
  }

  /** No reachable send meets a closed channel, and the channel is closed only after every
      worker has finished. */
  lemma NoSendAfterClose<T>(s: State<T>, outcomes: seq<Option<T>>, i: nat)
    requires Invariant(s, outcomes)
    ensures !Enabled(s, SendOnClosed(i))
    ensures Enabled(s, Close) ==> AllFinished(s) && s.open
  {}

  /** Some goroutine can move until the caller has its results. */
  lemma Progress<T>(s: State<T>, outcomes: seq<Option<T>>) returns (a: Action)
    requires Invariant(s, outcomes) && !s.caller.Done?
    ensures Enabled(s, a)
  {
    match s.caller
    case Adding(k) => a := if k < |s.workers| then Add else EndLoop;
    case Launching(_) => a := Launch;
    case StartingCloser => a := StartCloser;
    case Receiving =>
      if i :| 0 <= i < |s.workers| && Active(s.workers[i]) {
        var w := s.workers[i];
        a := if w.Running? then BlockReturns(i) else if w.Sending? then HandOver(i) else WorkerDone(i);
      } else {
        CountZero(s.workers);
        a := if s.closer.Waiting? then WaitReturns else if s.closer.Closing? then Close else ReceiveEnds;
      }
  }

  // ----- termination

  function WorkerRank<T>(w: Worker<T>): nat {
    match w
    case Idle => 4
    case Running => 3
    case Sending(_) => 2
    case Returning => 1
    case Finished => 0
  }

  function WorkersRank<T>(ws: seq<Worker<T>>): nat {
    if ws == [] then 0 else WorkerRank(ws[0]) + WorkersRank(ws[1..])
  }

  function CallerRank(c: Caller, n: nat): int {
    match c
    case Adding(k) => 3 + 2 * (n - k)
    case Launching(k) => 2 + 2 * (n - k)
    case StartingCloser => 2
    case Receiving => 1
    case Done => 0
  }

  function CloserRank(c: Closer): nat {
    match c
    case NotStarted => 3
    case Waiting => 2
    case Closing => 1
    case Closed => 0
  }

  function Measure<T>(s: State<T>): int {
    WorkersRank(s.workers) + CallerRank(s.caller, |s.workers|) + CloserRank(s.closer)
  }

  lemma {:induction false} RankUpdate<T>(ws: seq<Worker<T>>, i: nat, w: Worker<T>)
    requires i < |ws|
    ensures WorkersRank(ws[i := w]) + WorkerRank(ws[i]) == WorkersRank(ws) + WorkerRank(w)
  {
    if i == 0 {
      assert ws[i := w][1..] == ws[1..];
    } else {
      assert ws[i := w][1..] == ws[1..][i - 1 := w];
      RankUpdate(ws[1..], i - 1, w);
    }
  }

  /** Every step uses up some of a fixed budget. */
  lemma StepDescends<T>(s: State<T>, a: Action, outcomes: seq<Option<T>>)
    requires Invariant(s, outcomes) && Enabled(s, a)
    ensures 0 <= Measure(Next(s, a, outcomes)) < Measure(s)
  {
    var m := Moved(s, a);
    if m.Some? {
      RankUpdate(s.workers, m.value, Next(s, a, outcomes).workers[m.value]);
    }
  }

  lemma {:induction false} IdleRank<T>(ws: seq<Worker<T>>)
    requires forall i :: 0 <= i < |ws| ==> ws[i].Idle?
    ensures WorkersRank(ws) == 4 * |ws|
  {
    if ws == [] {
    } else {
      IdleRank(ws[1..]);
    }
  }

  // ----- whole runs

  /** `schedule` is an interleaving from `s` in which every step is enabled when it is taken. */
  predicate IsRun<T(==)>(s: State<T>, schedule: seq<Action>, outcomes: seq<Option<T>>)
    requires |s.workers| == |outcomes|
    decreases |schedule|
  {
    schedule == [] || (Enabled(s, schedule[0]) && IsRun(Next(s, schedule[0], outcomes), schedule[1..], outcomes))
  }

  function Reached<T(==)>(s: State<T>, schedule: seq<Action>, outcomes: seq<Option<T>>): State<T>
    requires |s.workers| == |outcomes| && IsRun(s, schedule, outcomes)
    decreases |schedule|
  {
    if schedule == [] then s else Reached(Next(s, schedule[0], outcomes), schedule[1..], outcomes)
  }

  lemma {:induction false} RunKeeps<T>(s: State<T>, schedule: seq<Action>, outcomes: seq<Option<T>>)
    requires Invariant(s, outcomes) && IsRun(s, schedule, outcomes)
    ensures Invariant(Reached(s, schedule, outcomes), outcomes)
    ensures |schedule| + Measure(Reached(s, schedule, outcomes)) <= Measure(s)
    ensures Measure(Reached(s, schedule, outcomes)) >= 0
    decreases |schedule|
  {
    if schedule == [] {
      assert Measure(s) >= 0;
    } else {
      StepKeeps(s, schedule[0], outcomes);
      StepDescends(s, schedule[0], outcomes);
      RunKeeps(Next(s, schedule[0], outcomes), schedule[1..], outcomes);
    }
  }

  /** Where the caller has returned. */
  lemma ReturnedWithAll<T>(s: State<T>, outcomes: seq<Option<T>>)
    requires Invariant(s, outcomes) && s.caller.Done?
    ensures AllFinished(s) && multiset(s.results) == Successes(outcomes)
  {
    AllDelivered(s.workers, outcomes);
  }

  /** A safe state: nothing panicked or can panic, and if nothing can move the caller has returned. */
  ghost predicate Safe<T>(s: State<T>) {
    && !s.panicked
    && (forall i :: !Enabled(s, SendOnClosed(i)))
    && ((forall a :: !Enabled(s, a)) ==> s.caller.Done?)
  }

  lemma InvariantSafe<T>(s: State<T>, outcomes: seq<Option<T>>)
    requires Invariant(s, outcomes)
    ensures Safe(s)
  {
    if !s.caller.Done? {
      var a := Progress(s, outcomes);
      assert Enabled(s, a);
    }
  }

  /** Main result: every interleaving has at most 6n + 6 steps and never panics; it can only stop
      where the caller has returned; and when the caller returns, every worker has finished and
      the results are exactly the values of the successful blocks, each as often as produced. */
  lemma EveryRun<T>(outcomes: seq<Option<T>>, schedule: seq<Action>)
    requires IsRun(Init(|outcomes|), schedule, outcomes)
    ensures |schedule| <= 6 * |outcomes| + 6
    ensures var s := Reached(Init(|outcomes|), schedule, outcomes);
      Safe(s) && (s.caller.Done? ==> AllFinished(s) && multiset(s.results) == Successes(outcomes))
  {
    var s0: State<T> := Init(|outcomes|);
    InitInvariant(outcomes);
    IdleRank(s0.workers);
    RunKeeps(s0, schedule, outcomes);
    var s := Reached(s0, schedule, outcomes);
    InvariantSafe(s, outcomes);
    if s.caller.Done? {
      ReturnedWithAll(s, outcomes);
    }
  }
}
