/**
  WorkerManager of the daemon: at most one worker process per plugin, one automatic restart after
  a crash, and a FAILED state after two crashes in a row. What processes and clocks do is given
  with each step; the bookkeeping is a function of the steps, and its properties hold over every
  run of them.
 */
module WorkerManager {

  datatype State = NotStarted | Starting | Running | Failed

  /**
    What comes back while a worker starts: its ready message, some other message, the end of its
    output, or an error or timeout.
   */
  datatype Ready = ReadyMessage | OtherMessage | StartEnded | StartError

  /** What comes back from a call: an error or timeout on the pipe, the end of output, or an answer. */
  datatype Reply = PipeError | ReplyEnded | Answer(value: string) | Refusal(message: string)

  /** The world during one attempt. */
  datatype Attempt = Attempt(alive: bool, pid: nat, spawnedAt: real, ready: Ready, reply: Reply, exited: bool,
      repliedAt: real)

  datatype Result = Value(value: string) | PluginError(message: string) | Started | Crashed | WorkerFailed

  // ---------- the bookkeeping ----------

  datatype WorkerInfo = WorkerInfo(pid: nat, lastUsed: real, requestSeq: nat)

  datatype Books = Books(workers: map<string, WorkerInfo>, states: map<string, State>, lastUsed: map<string, real>)
  {
    function StateOf(p: string): State {
      if p in states then states[p] else NotStarted
    }

    /** Between steps: tracked exactly when running, never caught starting, and the two notes of last use agree. */
    ghost predicate Consistent() {
      && (forall p: string :: p in workers <==> StateOf(p) == Running)
      && (forall p: string :: StateOf(p) != Starting)
      && (forall p: string :: p in workers ==> p in lastUsed && lastUsed[p] == workers[p].lastUsed)
    }
  }

  function Forget(b: Books, p: string, state: State): Books {
    Books(b.workers - {p}, b.states[p := state], b.lastUsed)
  }

  /** _ensure_worker: the books after it, whether it crashed, and how many processes it spawned. */
  function Ensured(b: Books, p: string, a: Attempt): (Books, bool, nat) {
    if p in b.workers && a.alive then (b, false, 0)
    else
      var used := b.lastUsed[p := a.spawnedAt];
      if a.ready.ReadyMessage? then
        (Books(b.workers[p := WorkerInfo(a.pid, a.spawnedAt, 0)], b.states[p := Running], used), false, 1)
      else
        (Books(b.workers - {p}, b.states[p := Starting], used), true, 1)
  }

  /** _call_once. */
  function CalledOnce(b: Books, p: string, a: Attempt): (Books, Result, nat) {
    var (b1, crashed, n) := Ensured(b, p, a);
    if crashed || p !in b1.workers then (b1, Crashed, n)
    else
      var w := b1.workers[p].(requestSeq := b1.workers[p].requestSeq + 1);
      if a.reply.PipeError? || a.reply.ReplyEnded? || a.exited then (b1.(workers := b1.workers[p := w]), Crashed, n)
      else
        var b2 := b1.(workers := b1.workers[p := w.(lastUsed := a.repliedAt)]).(lastUsed :=
            b1.lastUsed[p := a.repliedAt]);
        (b2, if a.reply.Answer? then Value(a.reply.value) else PluginError(a.reply.message), n)
  }

  /** One attempt of a call, or of a start, which makes no call. */
  function Tried(b: Books, p: string, isCall: bool, a: Attempt): (Books, Result, nat) {
    if isCall then CalledOnce(b, p, a)
    else
      var (b1, crashed, n) := Ensured(b, p, a);
      (b1, if crashed then Crashed else Started, n)
  }

  /** _with_crash_retry. */
  function Retried(b: Books, p: string, isCall: bool, first: Attempt, second: Attempt): (Books, Result, nat) {
    if b.StateOf(p) == Failed then (b, WorkerFailed, 0)
    else
      var (b1, r1, n1) := Tried(b, p, isCall, first);
      if r1 != Crashed then (b1, r1, n1)
      else
        var (b2, r2, n2) := Tried(Forget(b1, p, NotStarted), p, isCall, second);
        if r2 != Crashed then (b2, r2, n1 + n2) else (Forget(b2, p, Failed), WorkerFailed, n1 + n2)
  }

  /** The plugins one eviction pass stops; the clock is read anew for every worker. */
  function Idle(b: Books, clock: string -> real, timeout: real): set<string> {
    set p | p in b.workers && clock(p) - b.workers[p].lastUsed > timeout
  }

  /** The states after some plugins have been stopped. */
  ghost predicate EvictedStates(before: map<string, State>, after: map<string, State>, ids: set<string>) {
    && (forall p: string :: p in ids ==> p in after && after[p] == NotStarted)
    && (forall p: string :: p !in ids ==> (p in after <==> p in before) && (p in after ==> after[p] == before[p]))
  }

  function EvictedState(b: Books, ids: set<string>): Books {
    Books(b.workers - ids, map p | p in b.states.Keys + ids :: if p in ids then NotStarted else b.states[p], b.lastUsed)
  }

  // ---------- runs ----------

  datatype Step =
    | Call(p: string, first: Attempt, second: Attempt)
    | Start(p: string, first: Attempt, second: Attempt)
    | Stop(p: string)
    | RestartFailed(p: string)
    | Evict(clock: string -> real, timeout: real)
  {
    /** The step is about this plugin. */
    predicate About(q: string) { !Evict? && p == q }
  }

  function Next(b: Books, s: Step): Books {
    match s
    case Call(p, a1, a2) => Retried(b, p, true, a1, a2).0
    case Start(p, a1, a2) => Retried(b, p, false, a1, a2).0
    case Stop(p) => Forget(b, p, NotStarted)
    case RestartFailed(p) => Forget(b, p, NotStarted)
    case Evict(clock, timeout) => EvictedState(b, Idle(b, clock, timeout))
  }

  /** The processes spawned by a step. */
  function Spawned(b: Books, s: Step): nat {
    match s
    case Call(p, a1, a2) => Retried(b, p, true, a1, a2).2
    case Start(p, a1, a2) => Retried(b, p, false, a1, a2).2
    case _ => 0
  }

  const EMPTY := Books(map[], map[], map[])

  function Run(steps: seq<Step>): Books {
    if steps == [] then EMPTY else Next(Run(steps[..|steps| - 1]), steps[|steps| - 1])
  }

  /** Consistent but for one plugin. */
  ghost predicate OthersConsistent(b: Books, p: string) {
    && (forall q: string :: q != p ==> (q in b.workers <==> b.StateOf(q) == Running))
    && (forall q: string :: q != p ==> b.StateOf(q) != Starting)
    && (forall q: string :: q != p && q in b.workers ==> q in b.lastUsed && b.lastUsed[q] == b.workers[q].lastUsed)
  }

  /** Forgetting the one plugin puts the books right. */
  lemma ForgetConsistent(b: Books, p: string, state: State)
    requires OthersConsistent(b, p) && (state == NotStarted || state == Failed)
    ensures Forget(b, p, state).Consistent() && Forget(b, p, state).StateOf(p) == state
    ensures forall q: string :: q != p ==> Forget(b, p, state).StateOf(q) == b.StateOf(q)
  {
  }

  lemma EnsuredConsistent(b: Books, p: string, a: Attempt)
    requires b.Consistent()
    ensures var (b1, crashed, n) := Ensured(b, p, a);
            && n <= 1 && OthersConsistent(b1, p)
            && (!crashed ==> b1.Consistent() && p in b1.workers)
            && (forall q: string :: q != p ==> b1.StateOf(q) == b.StateOf(q))
  {
  }

  lemma RunningTracked(b: Books, p: string)
    requires b.Consistent() && p in b.workers
    ensures b.StateOf(p) == Running && OthersConsistent(b, p)
  {
  }

  /** Updating the worker of a running plugin. */
  lemma UpdateConsistent(b: Books, p: string, w: WorkerInfo)
    requires b.Consistent() && p in b.workers
    ensures OthersConsistent(b.(workers := b.workers[p := w]), p)
    ensures b.(workers := b.workers[p := w]).(lastUsed := b.lastUsed[p := w.lastUsed]).Consistent()
    ensures OthersConsistent(b.(workers := b.workers[p := w]).(lastUsed := b.lastUsed[p := w.lastUsed]), p)
  {
    var b1 := b.(workers := b.workers[p := w]);
    var b2 := b1.(lastUsed := b.lastUsed[p := w.lastUsed]);
    forall q: string ensures b1.StateOf(q) == b2.StateOf(q) == b.StateOf(q) && (q in b1.workers <==> q in b.workers) {
    }
  }

  lemma TriedConsistent(b: Books, p: string, isCall: bool, a: Attempt)
    requires b.Consistent()
    ensures var (b1, r, n) := Tried(b, p, isCall, a);
            && n <= 1 && OthersConsistent(b1, p) && r != WorkerFailed
            && (r != Crashed ==> b1.Consistent() && b1.StateOf(p) == Running)
            && (forall q: string :: q != p ==> b1.StateOf(q) == b.StateOf(q))
  {
    hide Ensured, Books.Consistent, OthersConsistent;
    EnsuredConsistent(b, p, a);
    var (b1, crashed, n) := Ensured(b, p, a);
    if !crashed && isCall {
      var w := b1.workers[p].(requestSeq := b1.workers[p].requestSeq + 1);
      UpdateConsistent(b1, p, w);
      UpdateConsistent(b1, p, w.(lastUsed := a.repliedAt));
      RunningTracked(b1, p);
    }
    if !crashed { RunningTracked(b1, p); }
  }

  /** One call or start: the books stay consistent, at most two spawns, and FAILED exactly after two crashes. */
  lemma RetriedConsistent(b: Books, p: string, isCall: bool, a1: Attempt, a2: Attempt)
    requires b.Consistent()
    ensures var (b', r, n) := Retried(b, p, isCall, a1, a2);
            && b'.Consistent() && n <= 2
            && (b.StateOf(p) == Failed ==> b' == b && n == 0)
            && (b.StateOf(p) != Failed ==> (b'.StateOf(p) == Failed <==> BothCrash(b, p, isCall, a1, a2)))
            && (r == WorkerFailed <==> b'.StateOf(p) == Failed)
            && (b'.StateOf(p) == Failed || b'.StateOf(p) == Running)
            && (forall q: string :: q != p ==> b'.StateOf(q) == b.StateOf(q))
  {
    hide Tried, Forget, Books.Consistent, OthersConsistent;
    if b.StateOf(p) != Failed {
      TriedConsistent(b, p, isCall, a1);
      var b1 := Tried(b, p, isCall, a1).0;
      ForgetConsistent(b1, p, NotStarted);
      if Tried(b, p, isCall, a1).1 == Crashed {
        var cleared := Forget(b1, p, NotStarted);
        TriedConsistent(cleared, p, isCall, a2);
        ForgetConsistent(Tried(cleared, p, isCall, a2).0, p, Failed);
      }
    }
  }

  /** Both attempts crash. */
  predicate BothCrash(b: Books, p: string, isCall: bool, a1: Attempt, a2: Attempt) {
    var (b1, r1, _) := Tried(b, p, isCall, a1);
    r1 == Crashed && Tried(Forget(b1, p, NotStarted), p, isCall, a2).1 == Crashed
  }

  /** Every step keeps the books consistent, spawns at most two processes, and none for a failed plugin. */
  lemma StepConsistent(b: Books, s: Step)
    requires b.Consistent()
    ensures Next(b, s).Consistent() && Spawned(b, s) <= 2
    ensures !s.Evict? && b.StateOf(s.p) == Failed ==> Spawned(b, s) == 0
  {
    hide Retried, Tried;
    match s
    case Call(p, a1, a2) => RetriedConsistent(b, p, true, a1, a2);
    case Start(p, a1, a2) => RetriedConsistent(b, p, false, a1, a2);
    case Stop(p) => ForgetConsistent(b, p, NotStarted);
    case RestartFailed(p) => ForgetConsistent(b, p, NotStarted);
    case Evict(clock, timeout) => EvictedConsistent(b, Idle(b, clock, timeout));
  }

  lemma EvictedConsistent(b: Books, ids: set<string>)
    requires b.Consistent()
    ensures EvictedState(b, ids).Consistent()
  {
    var after := EvictedState(b, ids);
    forall p: string ensures after.StateOf(p) == if p in ids then NotStarted else b.StateOf(p) {
    }
  }

  /** A step makes a plugin fail. */
  ghost predicate Fails(b: Books, s: Step, p: string) {
    && s.About(p) && (s.Call? || s.Start?)
    && b.StateOf(p) != Failed && BothCrash(b, p, s.Call?, s.first, s.second)
  }

  /** A step clears a failure. */
  predicate Clears(s: Step, p: string) {
    s.About(p) && (s.Stop? || s.RestartFailed?)
  }

  /** How one step moves a plugin into and out of FAILED. */
  lemma FailedNext(b: Books, s: Step, p: string)
    requires b.Consistent()
    ensures Next(b, s).StateOf(p) == Failed <==> Fails(b, s, p) || (b.StateOf(p) == Failed && !Clears(s, p))
  {
    hide Retried, Tried, BothCrash;
    match s
    case Call(q, a1, a2) => RetriedConsistent(b, q, true, a1, a2);
    case Start(q, a1, a2) => RetriedConsistent(b, q, false, a1, a2);
    case _ =>
  }

  lemma {:induction false} RunConsistent(steps: seq<Step>)
    ensures Run(steps).Consistent()
  {
    if steps != [] {
      var n := |steps| - 1;
      RunConsistent(steps[..n]);
      StepConsistent(Run(steps[..n]), steps[n]);
    }
  }

  /** Step k of a run made the plugin fail, and nothing since has stopped it or asked for a restart. */
  ghost predicate FailedSince(steps: seq<Step>, p: string, k: nat) {
    && k < |steps| && Fails(Run(steps[..k]), steps[k], p)
    && forall j :: k < j < |steps| ==> !Clears(steps[j], p)
  }

  /**
    Over every run: a plugin is FAILED exactly when some call or start of it crashed twice and it
    has not been cleared since.
   */
  lemma {:induction false} FailedExactly(steps: seq<Step>, p: string)
    ensures Run(steps).StateOf(p) == Failed <==> exists k: nat :: FailedSince(steps, p, k)
  {
    hide Fails, Clears, Books.StateOf, FailedSince;
    NeverFailed(p);
    if steps != [] {
      var n := |steps| - 1;
      FailedExactly(steps[..n], p);
      RunConsistent(steps[..n]);
      FailedNext(Run(steps[..n]), steps[n], p);
      forall k: nat ensures k < n ==> (FailedSince(steps, p, k) <==>
          FailedSince(steps[..n], p, k) && !Clears(steps[n], p)) {
        if k < n { SinceNext(steps, p, k); }
      }
      SinceLast(steps, p);
      SinceWithin(steps, p);
      SinceWithin(steps[..n], p);
    }
  }

  lemma NeverFailed(p: string)
    ensures Run([]).StateOf(p) != Failed
    ensures forall k: nat :: !FailedSince([], p, k)
  {
  }

  /** A failure in the last step has not been cleared. */
  lemma SinceLast(steps: seq<Step>, p: string)
    requires steps != []
    ensures FailedSince(steps, p, |steps| - 1) <==> Fails(Run(steps[..|steps| - 1]), steps[|steps| - 1], p)
  {
    hide Fails, Run, Clears;
  }

  lemma SinceWithin(steps: seq<Step>, p: string)
    ensures forall k: nat :: FailedSince(steps, p, k) ==> k < |steps|
  {
    hide Fails, Run, Clears;
  }

  /** One step further on. */
  lemma SinceNext(steps: seq<Step>, p: string, k: nat)
    requires k < |steps| - 1
    ensures FailedSince(steps, p, k) <==> FailedSince(steps[..|steps| - 1], p, k) && !Clears(steps[|steps| - 1], p)
  {
    hide Fails, Run, Clears;
    var before := steps[..|steps| - 1];
    assert before[..k] == steps[..k] && before[k] == steps[k];
    assert forall j :: k < j < |before| ==> steps[j] == before[j];
  }

  // ---------- what a caller gets ----------

  lemma PutTwice<V>(m: map<string, V>, p: string, x: V, y: V)
    ensures m[p := x][p := y] == m[p := y] && m[p := x] - {p} == m - {p}
  {
  }

  /** There is a worker to talk to in this attempt: a live one, or a new one that says it is ready. */
  ghost predicate Available(tracked: bool, a: Attempt) {
    (tracked && a.alive) || a.ready == ReadyMessage
  }

  /** A worker answers, in whatever way, and is still there afterwards. */
  ghost predicate Serves(tracked: bool, a: Attempt) {
    Available(tracked, a) && !a.exited && (a.reply.Answer? || a.reply.Refusal?)
  }

  /** The attempt that decides: the first unless it crashes, else the second, which finds no worker to use again. */
  ghost function Deciding(tracked: bool, a1: Attempt, a2: Attempt): Attempt {
    if Serves(tracked, a1) then a1 else a2
  }

  /** The answer to a call is that of the deciding attempt. */
  ghost predicate CallAnswered(failed: bool, tracked: bool, a1: Attempt, a2: Attempt, r: Result) {
    var a := Deciding(tracked, a1, a2);
    var served := !failed && (Serves(tracked, a1) || Serves(false, a2));
    && (forall v :: r == Value(v) <==> served && a.reply == Answer(v))
    && (forall m :: r == PluginError(m) <==> served && a.reply == Refusal(m))
    && (r == WorkerFailed <==> !served)
  }

  /** The same for a start. */
  ghost predicate StartAnswered(failed: bool, tracked: bool, a1: Attempt, a2: Attempt, r: Result) {
    && (r == Started <==> !failed && (Available(tracked, a1) || Available(false, a2)))
    && (r == WorkerFailed <==> failed || !(Available(tracked, a1) || Available(false, a2)))
  }

  lemma OneCall(b: Books, p: string, a: Attempt)
    ensures var (b1, r, n) := Tried(b, p, true, a);
            var tracked := p in b.workers;
            && (r == Crashed <==> !Serves(tracked, a))
            && (Serves(tracked, a) ==>
                  r == if a.reply.Answer? then Value(a.reply.value) else PluginError(a.reply.message))
            && n == (if tracked && a.alive then 0 else 1)
  {
  }

  /** What a call returns and how many processes it spawns, attempt by attempt. */
  lemma CallAnswer(b: Books, p: string, a1: Attempt, a2: Attempt)
    ensures var (b', r, n) := Retried(b, p, true, a1, a2);
            var failed, tracked := b.StateOf(p) == Failed, p in b.workers;
            && CallAnswered(failed, tracked, a1, a2, r)
            && n == (if failed then 0
                     else (if tracked && a1.alive then 0 else 1) + if Serves(tracked, a1) then 0 else 1)
  {
    hide Tried, Available;
    OneCall(b, p, a1);
    var c := Forget(Tried(b, p, true, a1).0, p, NotStarted);
    OneCall(c, p, a2);
    assert p !in c.workers;
  }

  lemma OneStart(b: Books, p: string, a: Attempt)
    ensures var (b1, r, n) := Tried(b, p, false, a);
            var tracked := p in b.workers;
            && r == (if Available(tracked, a) then Started else Crashed)
            && n == (if tracked && a.alive then 0 else 1)
  {
  }

  /** The same for a start. */
  lemma StartAnswer(b: Books, p: string, a1: Attempt, a2: Attempt)
    ensures var (b', r, n) := Retried(b, p, false, a1, a2);
            var failed, tracked := b.StateOf(p) == Failed, p in b.workers;
            && StartAnswered(failed, tracked, a1, a2, r)
            && n == (if failed then 0
                     else (if tracked && a1.alive then 0 else 1) + if Available(tracked, a1) then 0 else 1)
  {
    hide Tried;
    OneStart(b, p, a1);
    var c := Forget(Tried(b, p, false, a1).0, p, NotStarted);
    OneStart(c, p, a2);
    assert p !in c.workers;
  }

  /** The worker a served call leaves: its number of requests has grown by one, and it was used just now. */
  ghost function ServedWorker(b: Books, p: string, first: bool, a: Attempt): WorkerInfo {
    if first && p in b.workers && a.alive then WorkerInfo(b.workers[p].pid, a.repliedAt, b.workers[p].requestSeq + 1)
    else WorkerInfo(a.pid, a.repliedAt, 1)
  }

  lemma ServedBooks(b: Books, p: string, a: Attempt)
    requires b.Consistent() && Serves(p in b.workers, a)
    ensures Tried(b, p, true, a).0 == Books(b.workers[p := ServedWorker(b, p, true, a)], b.states[p := Running],
        b.lastUsed[p := a.repliedAt])
  {
    var b1 := Ensured(b, p, a).0;
    if p in b.workers && a.alive {
      assert b.StateOf(p) == Running;
      assert b.states[p := Running] == b.states;
    }
    var w := b1.workers[p];
    PutTwice(b1.workers, p, w.(requestSeq := w.requestSeq + 1), WorkerInfo(w.pid, a.repliedAt, w.requestSeq + 1));
    if !(p in b.workers && a.alive) {
      PutTwice(b.workers, p, w, WorkerInfo(w.pid, a.repliedAt, w.requestSeq + 1));
      PutTwice(b.lastUsed, p, a.spawnedAt, a.repliedAt);
    }
  }

  /** What an attempt does not touch. */
  lemma OneCallKeeps(b: Books, p: string, a: Attempt)
    ensures var b1 := Tried(b, p, true, a).0;
            && b1.workers - {p} == b.workers - {p}
            && b1.states[p := Failed] == b.states[p := Failed]
            && b1.states[p := NotStarted] == b.states[p := NotStarted]
            && b1.lastUsed[p := 0.0] == b.lastUsed[p := 0.0]
  {
    EnsuredKeeps(b, p, a);
    var b1 := Ensured(b, p, a).0;
    hide Ensured;
    if p in b1.workers {
      var w := b1.workers[p].(requestSeq := b1.workers[p].requestSeq + 1);
      PutTwice(b1.workers, p, w, w);
      PutTwice(b1.workers, p, w.(lastUsed := a.repliedAt), w);
    }
    PutTwice(b1.lastUsed, p, a.repliedAt, 0.0);
  }

  lemma EnsuredKeeps(b: Books, p: string, a: Attempt)
    ensures var b1 := Ensured(b, p, a).0;
            && b1.workers - {p} == b.workers - {p}
            && b1.states[p := Failed] == b.states[p := Failed]
            && b1.states[p := NotStarted] == b.states[p := NotStarted]
            && b1.lastUsed[p := 0.0] == b.lastUsed[p := 0.0]
  {
  }

  lemma UnservedUse(b: Books, p: string, a: Attempt)
    requires p !in b.workers && !Serves(false, a)
    ensures Tried(b, p, true, a).0.lastUsed == b.lastUsed[p := a.spawnedAt]
  {
  }

  /** What a call leaves in the books: one worker, served just now, or none and a failure; nothing else changes. */
  lemma CallBooks(b: Books, p: string, a1: Attempt, a2: Attempt)
    requires b.Consistent() && b.StateOf(p) != Failed
    ensures var b' := Retried(b, p, true, a1, a2).0;
            var first := Serves(p in b.workers, a1);
            if first || Serves(false, a2) then
              var a := if first then a1 else a2;
              b' == Books(b.workers[p := ServedWorker(b, p, first, a)], b.states[p := Running],
                  b.lastUsed[p := a.repliedAt])
            else b' == Books(b.workers - {p}, b.states[p := Failed], b.lastUsed[p := a2.spawnedAt])
  {
    hide Tried, Serves, ServedWorker, Books.Consistent, OthersConsistent;
    OneCall(b, p, a1);
    if Serves(p in b.workers, a1) { ServedBooks(b, p, a1); }
    OneCallKeeps(b, p, a1);
    TriedConsistent(b, p, true, a1);
    var b1 := Tried(b, p, true, a1).0;
    if !Serves(p in b.workers, a1) {
      ForgetConsistent(b1, p, NotStarted);
      var c := Forget(b1, p, NotStarted);
      assert p !in c.workers;
      OneCall(c, p, a2);
      if Serves(false, a2) { ServedBooks(c, p, a2); } else { UnservedUse(c, p, a2); }
      OneCallKeeps(c, p, a2);
      PutOver(b1.lastUsed, b.lastUsed, p, 0.0, a2.repliedAt);
      PutOver(b1.lastUsed, b.lastUsed, p, 0.0, a2.spawnedAt);
      NewlyServed(b, c, p, a2);
      assert c.workers == b.workers - {p};
      assert (b.workers - {p})[p := ServedWorker(b, p, false, a2)] == b.workers[p := ServedWorker(b, p, false, a2)];
      PutTwice(b.states, p, NotStarted, Running);
      PutTwice(b.states, p, NotStarted, Failed);
      assert b.workers - {p} - {p} == b.workers - {p};
    }
  }

  lemma NewlyServed(b: Books, c: Books, p: string, a: Attempt)
    requires p !in c.workers
    ensures ServedWorker(c, p, true, a) == ServedWorker(b, p, false, a)
  {
  }

  lemma PutOver<V>(m: map<string, V>, n: map<string, V>, p: string, x: V, y: V)
    requires m[p := x] == n[p := x]
    ensures m[p := y] == n[p := y]
  {
    PutTwice(m, p, x, y);
    PutTwice(n, p, x, y);
  }

  // ---------- the class ----------

  class Worker {
    const pid: nat
    var lastUsed: real
    var requestSeq: nat

    constructor (pid: nat, now: real)
      ensures this.pid == pid && lastUsed == now && requestSeq == 0
    {
      this.pid, lastUsed, requestSeq := pid, now, 0;
    }
  }

  class Manager {
    var workers: map<string, Worker>     // _workers
    var states: map<string, State>       // _states
    var lastUsed: map<string, real>      // _last_used

    /** No two plugins share a worker. */
    ghost predicate Apart()
      reads this
    {
      forall p: string, q: string :: p in workers && q in workers && p != q ==> workers[p] != workers[q]
    }

    /** The books as they stand. */
    ghost function Abs(): Books
      reads this, workers.Values
    {
      Books(map p | p in workers :: WorkerInfo(workers[p].pid, workers[p].lastUsed, workers[p].requestSeq), states,
          lastUsed)
    }

    constructor ()
      ensures Apart() && Abs() == EMPTY
    {
      workers, states, lastUsed := map[], map[], map[];
    }

    method Spawn(p: string, a: Attempt) returns (w: Worker)
      requires Apart()
      modifies this
      ensures Apart() && fresh(w) && p in workers && workers[p] == w && workers == old(workers)[p := w]
      ensures Abs() == Books(old(Abs()).workers[p := WorkerInfo(a.pid, a.spawnedAt, 0)], old(states)[p := Starting],
          old(lastUsed)[p := a.spawnedAt])
    {
      ghost var b := Abs();
      states := states[p := Starting];
      w := new Worker(a.pid, a.spawnedAt);
      workers := workers[p := w];
      lastUsed := lastUsed[p := w.lastUsed];
      assert Abs().workers == b.workers[p := WorkerInfo(a.pid, a.spawnedAt, 0)];
    }

    /** _ensure_worker: a live worker is used again; otherwise a process is spawned and has to say it is ready. */
    method EnsureWorker(p: string, a: Attempt) returns (w: Worker?, spawned: nat)
      requires Apart()
      modifies this
      ensures Apart() && (Abs(), w == null, spawned) == Ensured(old(Abs()), p, a)
      ensures w != null <==> Available(p in old(workers), a)
      ensures spawned == if p in old(workers) && a.alive then 0 else 1
      ensures p in old(workers) && a.alive ==> w == old(workers)[p]
      ensures w != null ==> p in workers && workers[p] == w
      ensures forall q: string :: q in workers ==> workers[q] in old(workers.Values) || fresh(workers[q])
    {
      spawned := 0;
      if p in workers && a.alive {
        return workers[p], 0;
      }
      w := Spawn(p, a);
      spawned := 1;
      PutTwice(old(states), p, Starting, Running);
      PutTwice(old(Abs()).workers, p, WorkerInfo(a.pid, a.spawnedAt, 0), WorkerInfo(a.pid, a.spawnedAt, 0));
      ghost var b := Abs();
      if a.ready.ReadyMessage? {
        states := states[p := Running];
        assert Abs() == b.(states := b.states[p := Running]);
      } else {
        Drop(p);
        w := null;
        assert Abs() == b.(workers := b.workers - {p});
      }
    }

    /** Losing track of a worker. */
    method Drop(p: string)
      requires Apart()
      modifies this`workers
      ensures Apart() && workers == old(workers) - {p} && Abs() == old(Abs()).(workers := old(Abs()).workers - {p})
    {
      ghost var b := Abs();
      workers := workers - {p};
      assert Abs().workers == b.workers - {p};
    }

    /** The next request number. */
    method Number(p: string)
      requires Apart() && p in workers
      modifies workers[p]
      ensures Abs() == old(Abs()).(workers := old(Abs()).workers[p :=
          old(Abs()).workers[p].(requestSeq := old(Abs()).workers[p].requestSeq + 1)])
    {
      ghost var b := Abs();
      workers[p].requestSeq := workers[p].requestSeq + 1;
      assert Abs().workers == b.workers[p := b.workers[p].(requestSeq := b.workers[p].requestSeq + 1)];
    }

    /** A worker has been used. */
    method MarkUsed(p: string, now: real)
      requires Apart() && p in workers
      modifies this`lastUsed, workers[p]
      ensures Apart() && Abs() == old(Abs()).(workers := old(Abs()).workers[p :=
          old(Abs()).workers[p].(lastUsed := now)]).(lastUsed := old(lastUsed)[p := now])
    {
      ghost var b := Abs();
      workers[p].lastUsed := now;
      lastUsed := lastUsed[p := workers[p].lastUsed];
      assert Abs().workers == b.workers[p := b.workers[p].(lastUsed := now)];
    }

    /** _call_once: every request gets the next number; only an answer from a live worker counts as use. */
    method CallOnce(p: string, a: Attempt) returns (r: Result, spawned: nat)
      requires Apart()
      modifies this, workers.Values
      ensures Apart() && (Abs(), r, spawned) == CalledOnce(old(Abs()), p, a)
      ensures forall v :: r == Value(v) <==> Serves(p in old(workers), a) && a.reply == Answer(v)
      ensures forall m :: r == PluginError(m) <==> Serves(p in old(workers), a) && a.reply == Refusal(m)
      ensures r == Crashed <==> !Serves(p in old(workers), a)
      ensures forall q: string :: q in workers ==> workers[q] in old(workers.Values) || fresh(workers[q])
    {
      var w;
      w, spawned := EnsureWorker(p, a);
      if w == null {
        return Crashed, spawned;
      }
      ghost var b1 := Abs();
      Number(p);
      PutTwice(b1.workers, p, b1.workers[p].(requestSeq := b1.workers[p].requestSeq + 1),
               b1.workers[p].(requestSeq := b1.workers[p].requestSeq + 1).(lastUsed := a.repliedAt));
      if a.reply.PipeError? || a.reply.ReplyEnded? || a.exited {
        return Crashed, spawned;
      }
      MarkUsed(p, a.repliedAt);
      r := match a.reply
        case Answer(v) => Value(v)
        case Refusal(m) => PluginError(m)
        case _ => Crashed;
    }

    /** _with_crash_retry around a call or a start. */
    method WithCrashRetry(p: string, isCall: bool, first: Attempt, second: Attempt) returns (r: Result, spawned: nat)
      requires Apart()
      modifies this, workers.Values
      ensures Apart() && (Abs(), r, spawned) == Retried(old(Abs()), p, isCall, first, second)
    {
      hide Tried, Forget;
      spawned := 0;
      if p in states && states[p] == Failed {
        return WorkerFailed, 0;
      }
      var attempt := 0;
      ghost var b := Abs();
      while attempt < 2
        invariant Apart() && attempt <= 2 && b.StateOf(p) != Failed
        invariant forall q: string :: q in workers ==> workers[q] in old(workers.Values) || fresh(workers[q])
        invariant attempt == 0 ==> Abs() == b && spawned == 0
        invariant attempt == 1 ==> Tried(b, p, isCall, first).1 == Crashed && spawned == Tried(b, p, isCall, first).2
        invariant attempt == 1 ==> Abs() == Forget(Tried(b, p, isCall, first).0, p, NotStarted)
        invariant attempt < 2
      {
        var n;
        r, n := Try(p, isCall, if attempt == 0 then first else second);
        spawned := spawned + n;
        if r != Crashed {
          return;
        }
        ForgetTwice(Abs(), p, NotStarted, Failed);
        GiveUp(p, NotStarted);
        if attempt == 1 {
          GiveUp(p, Failed);
          return WorkerFailed, spawned;
        }
        attempt := attempt + 1;
      }
      r := WorkerFailed;
    }

    /** The action of one attempt. */
    method Try(p: string, isCall: bool, a: Attempt) returns (r: Result, spawned: nat)
      requires Apart()
      modifies this, workers.Values
      ensures Apart() && (Abs(), r, spawned) == Tried(old(Abs()), p, isCall, a)
      ensures forall q: string :: q in workers ==> workers[q] in old(workers.Values) || fresh(workers[q])
    {
      if isCall {
        r, spawned := CallOnce(p, a);
      } else {
        var w;
        w, spawned := EnsureWorker(p, a);
        r := if w == null then Crashed else Started;
      }
    }

    /** Dropping a worker and noting a state: after a crash, on stop, and on a manual restart. */
    method GiveUp(p: string, state: State)
      requires Apart()
      modifies this
      ensures Apart() && Abs() == Forget(old(Abs()), p, state)
      ensures workers == old(workers) - {p} && states == old(states)[p := state] && lastUsed == old(lastUsed)
    {
      Drop(p);
      states := states[p := state];
    }

    /** call(). */
    method DoCall(p: string, first: Attempt, second: Attempt) returns (r: Result, spawned: nat)
      requires Apart()
      modifies this, workers.Values
      ensures Apart() && Abs() == Next(old(Abs()), Call(p, first, second))
          && spawned == Spawned(old(Abs()), Call(p, first, second))
      ensures CallAnswered(old(Abs().StateOf(p)) == Failed, p in old(workers), first, second, r)
    {
      CallAnswer(Abs(), p, first, second);
      r, spawned := WithCrashRetry(p, true, first, second);
    }

    /** start(). */
    method DoStart(p: string, first: Attempt, second: Attempt) returns (r: Result, spawned: nat)
      requires Apart()
      modifies this, workers.Values
      ensures Apart() && Abs() == Next(old(Abs()), Start(p, first, second))
          && spawned == Spawned(old(Abs()), Start(p, first, second))
      ensures StartAnswered(old(Abs().StateOf(p)) == Failed, p in old(workers), first, second, r)
    {
      StartAnswer(Abs(), p, first, second);
      r, spawned := WithCrashRetry(p, false, first, second);
    }

    /** stop(), whose ending of the process is not modelled. */
    method DoStop(p: string)
      requires Apart()
      modifies this
      ensures Apart() && Abs() == Next(old(Abs()), Stop(p))
      ensures workers == old(workers) - {p} && states == old(states)[p := NotStarted] && lastUsed == old(lastUsed)
    {
      GiveUp(p, NotStarted);
    }

    /** restart_failed(). */
    method DoRestartFailed(p: string)
      requires Apart()
      modifies this
      ensures Apart() && Abs() == Next(old(Abs()), RestartFailed(p))
      ensures workers == old(workers) - {p} && states == old(states)[p := NotStarted] && lastUsed == old(lastUsed)
    {
      states := states[p := NotStarted];
      Drop(p);
    }

    /** One pass of the eviction loop: first the idle workers are listed, then each is stopped. */
    method EvictIdle(clock: string -> real, timeout: real)
      requires Apart()
      modifies this
      ensures Apart() && Abs() == Next(old(Abs()), Evict(clock, timeout))
      ensures forall p: string :: p in workers <==>
                p in old(workers) && clock(p) - old(workers)[p].lastUsed <= timeout
      ensures forall p: string :: p in old(workers) && p !in workers ==> p in states && states[p] == NotStarted
      ensures forall p: string :: !(p in old(workers) && p !in workers) ==>
                Abs().StateOf(p) == old(Abs().StateOf(p)) && (p in workers ==> workers[p] == old(workers)[p])
    {
      ghost var b := Abs();
      var ids := set p | p in workers && clock(p) - workers[p].lastUsed > timeout;
      assert ids == Idle(b, clock, timeout);
      StopAll(ids);
    }

    /** Stopping some plugins one after another. */
    method StopAll(ids: set<string>)
      requires Apart()
      modifies this
      ensures Apart() && Abs() == EvictedState(old(Abs()), ids)
      ensures workers == old(workers) - ids && EvictedStates(old(states), states, ids)
    {
      hide EvictedState, Forget, EvictedStates;
      ghost var b := Abs();
      NothingEvicted(b);
      var left, done := ids, {};
      while left != {}
        invariant Apart() && left + done == ids && left !! done && Abs() == EvictedState(b, done)
        invariant workers == old(workers) - done && EvictedStates(old(states), states, done)
        decreases left
      {
        var p :| p in left;
        EvictOne(b, done, p);
        EvictedOne(old(states), states, done, p);
        GiveUp(p, NotStarted);
        left, done := left - {p}, done + {p};
        assert workers == old(workers) - done;
      }
      assert done == ids;
    }

    /** status(): the state, the process, and how long ago the plugin was used. */
    method Status(p: string, now: real) returns (state: State, pid: int, ago: real, used: bool)
      requires Apart() && Abs().Consistent()
      ensures state == Abs().StateOf(p) && (pid >= 0 <==> state == Running)
          && (pid >= 0 ==> pid == Abs().workers[p].pid)
      ensures used <==> p in Abs().lastUsed
      ensures used ==> ago == now - Abs().lastUsed[p]
    {
      state := if p in states then states[p] else NotStarted;
      pid, ago, used := -1, 0.0, false;
      if p in workers {
        pid, ago, used := workers[p].pid, now - workers[p].lastUsed, true;
        assert Abs().workers[p].lastUsed == workers[p].lastUsed;
      } else if p in lastUsed {
        ago, used := now - lastUsed[p], true;
      }
    }
  }

  lemma ForgetTwice(b: Books, p: string, x: State, y: State)
    ensures Forget(Forget(b, p, x), p, y) == Forget(b, p, y)
  {
    PutTwice(b.states, p, x, y);
    assert b.workers - {p} - {p} == b.workers - {p};
  }

  lemma EvictedOne(before: map<string, State>, after: map<string, State>, done: set<string>, p: string)
    requires EvictedStates(before, after, done)
    ensures EvictedStates(before, after[p := NotStarted], done + {p})
  {
  }

  lemma NothingEvicted(b: Books)
    ensures EvictedState(b, {}) == b && EvictedStates(b.states, b.states, {})
  {
    assert b.workers - {} == b.workers;
    assert (map p | p in b.states.Keys :: b.states[p]) == b.states;
  }

  lemma EvictOne(b: Books, done: set<string>, p: string)
    ensures Forget(EvictedState(b, done), p, NotStarted) == EvictedState(b, done + {p})
  {
    var x, y := Forget(EvictedState(b, done), p, NotStarted), EvictedState(b, done + {p});
    assert x.workers == y.workers;
    assert x.states == y.states;
  }
}
