/** Schedules under which shutting a pool down blocks forever. */
module PoolDeadlocks {
  import opened Options
  import opened PoolProtocol

  /** A state without work: every flag and counter uniform except for worker 0. */
  function Idle<T>(c: Config, stopped: nat, first: Pc<T>, others: Pc<T>, control: Control, queued: nat,
                   taken: nat): State<T> {
    State([], seq(queued, _ => Sentinel), seq(c.threads, i => i < stopped),
          seq(c.threads, i => if i == 0 then first else others), control, [],
          seq(c.threads, i => if i == 0 then taken else 0), queued + taken, false)
  }

  ghost predicate Reachable<T>(c: Config, s: State<T>) {
    exists schedule :: Exec(c, Init<T>(c, []), schedule) == Some(s)
  }

  lemma ReachNext<T>(c: Config, s: State<T>, a: Action, t: State<T>)
    requires Reachable(c, s) && Shaped(c, s) && Enabled(c, s, a) && Next(c, s, a) == t
    ensures Reachable(c, t)
  {
    var schedule :| Exec(c, Init<T>(c, []), schedule) == Some(s);
    ExecNext(c, Init<T>(c, []), schedule, a);
  }

  lemma ReachInit<T>(c: Config)
    ensures Reachable(c, Idle<T>(c, 0, Test, Test, Feeding, 0, 0))
  {
    var s := Idle<T>(c, 0, Test, Test, Feeding, 0, 0);
    assert Init<T>(c, []) == s;
    assert Exec(c, Init<T>(c, []), []) == Some(s);
  }

  /** `request_stop` reaches every worker. */
  lemma {:induction false} ReachStopped<T>(c: Config, first: Pc<T>, others: Pc<T>, n: nat)
    requires n <= c.threads && c.threads > 0
    requires Reachable(c, Idle(c, 0, first, others, Stopping(0), 0, 0))
    ensures Reachable(c, Idle(c, n, first, others, Stopping(n), 0, 0))
  {
    hide Reachable;
    if n > 0 {
      ReachStopped(c, first, others, n - 1);
      var s, t := Idle(c, n - 1, first, others, Stopping(n - 1), 0, 0), Idle(c, n, first, others, Stopping(n), 0, 0);
      assert t.stop == s.stop[n - 1 := true];
      ReachNext(c, s, ControlStep, t);
    }
  }

  /** The first wake-up loop runs until the queue is full or it is done. */
  lemma {:induction false} ReachWoken<T>(c: Config, first: Pc<T>, others: Pc<T>, n: nat)
    requires n <= c.threads && n <= c.capacity && c.threads > 0
    requires Reachable(c, Idle(c, c.threads, first, others, Waking(0), 0, 0))
    ensures Reachable(c, Idle(c, c.threads, first, others, Waking(n), n, 0))
  {
    hide Reachable;
    if n > 0 {
      ReachWoken(c, first, others, n - 1);
      var s, t := Idle(c, c.threads, first, others, Waking(n - 1), n - 1, 0),
        Idle(c, c.threads, first, others, Waking(n), n, 0);
      assert t.queue == s.queue + [Sentinel];
      ReachNext(c, s, ControlStep, t);
    }
  }

  /** The second one keeps pushing while it sees worker 0 not done. */
  lemma {:induction false} ReachRewoken<T>(c: Config, others: Pc<T>, n: nat)
    requires n <= c.threads && c.threads + n <= c.capacity && c.threads > 0
    requires Reachable(c, Idle(c, c.threads, Exit, others, Checking(0, 0), c.threads, 0))
    ensures Reachable(c, Idle(c, c.threads, Exit, others, Checking(n, 0), c.threads + n, 0))
  {
    hide Reachable, Idle;
    if n > 0 {
      ReachRewoken(c, others, n - 1);
      RewakeOnce(c, others, n - 1);
    }
  }

  lemma RewakeOnce<T>(c: Config, others: Pc<T>, n: nat)
    requires n < c.threads && c.threads + n < c.capacity
    requires Reachable(c, Idle(c, c.threads, Exit, others, Checking(n, 0), c.threads + n, 0))
    ensures Reachable(c, Idle(c, c.threads, Exit, others, Checking(n + 1, 0), c.threads + n + 1, 0))
  {
    hide Reachable;
    var q := c.threads + n;
    var m := Idle(c, c.threads, Exit, others, Rewaking(n), q, 0);
    ReachNext(c, Idle(c, c.threads, Exit, others, Checking(n, 0), q, 0), ControlStep, m);
    var t := Idle(c, c.threads, Exit, others, Checking(n + 1, 0), q + 1, 0);
    assert t.queue == m.queue + [Sentinel];
    ReachNext(c, m, ControlStep, t);
  }

  /** Like `Idle`, with workers 1..moved-1 at `after` and the later ones at `before`. */
  function Mixed<T>(c: Config, stopped: nat, first: Pc<T>, moved: nat, after: Pc<T>, before: Pc<T>,
                    control: Control): State<T> {
    Idle(c, stopped, first, before, control, 0, 0).(
      workers := seq(c.threads, i => if i == 0 then first else if i < moved then after else before))
  }

  lemma MixedStart<T>(c: Config, stopped: nat, first: Pc<T>, after: Pc<T>, before: Pc<T>, control: Control)
    ensures Mixed(c, stopped, first, 1, after, before, control) == Idle(c, stopped, first, before, control, 0, 0)
  {
    assert Mixed(c, stopped, first, 1, after, before, control).workers
      == Idle(c, stopped, first, before, control, 0, 0).workers;
  }

  lemma MixedEnd<T>(c: Config, stopped: nat, first: Pc<T>, after: Pc<T>, before: Pc<T>, control: Control)
    ensures Mixed(c, stopped, first, c.threads, after, before, control) == Idle(c, stopped, first, after, control, 0, 0)
  {
    assert Mixed(c, stopped, first, c.threads, after, before, control).workers
      == Idle(c, stopped, first, after, control, 0, 0).workers;
  }

  lemma WorkerToEnd<T>(c: Config, s: State<T>, i: nat)
    requires c.kind.ChunkHasher? && Shaped(c, s) && Reachable(c, s)
    requires i < c.threads && s.workers[i].Test? && s.stop[i] && s.queue == []
    ensures Reachable(c, Goto(s, i, Finished))
  {
    WorkerToExit(c, s, i);
    var u := Goto(s, i, Exit);
    ReachNext(c, u, WorkerStep(i), Goto(u, i, Finished));
    assert Goto(u, i, Finished) == Goto(s, i, Finished);
  }

  lemma WorkerToExit<T>(c: Config, s: State<T>, i: nat)
    requires Shaped(c, s) && Reachable(c, s)
    requires i < c.threads && s.workers[i].Test? && s.stop[i] && s.queue == []
    ensures Reachable(c, Goto(s, i, Exit))
  {
    var u := Goto(s, i, Drain);
    ReachNext(c, s, WorkerStep(i), u);
    ReachNext(c, u, WorkerStep(i), Goto(u, i, Exit));
    assert Goto(u, i, Exit) == Goto(s, i, Exit);
  }

  /** All workers are stopped before any wake-up, and the first finds the queue empty. */
  lemma ReachFirstExiting<T>(c: Config)
    requires c.kind.ChunkHasher? && c.threads > 0
    ensures Reachable(c, Mixed<T>(c, c.threads, Exit, 1, Finished, Test, Waking(0)))
  {
    var n := c.threads;
    ReachInit<T>(c);
    ReachNext(c, Idle<T>(c, 0, Test, Test, Feeding, 0, 0), ControlStep, Idle(c, 0, Test, Test, Stopping(0), 0, 0));
    ReachStopped<T>(c, Test, Test, n);
    var s := Idle<T>(c, n, Test, Test, Waking(0), 0, 0);
    ReachNext(c, Idle<T>(c, n, Test, Test, Stopping(n), 0, 0), ControlStep, s);
    WorkerToExit(c, s, 0);
    var t := Idle<T>(c, n, Exit, Test, Waking(0), 0, 0);
    assert t.workers == s.workers[0 := Exit];
    MixedStart<T>(c, n, Exit, Finished, Test, Waking(0));
  }

  /** The workers after it find the queue empty too, and finish. */
  lemma {:induction false} ReachOthersFinished<T>(c: Config, n: nat)
    requires c.kind.ChunkHasher? && 1 <= n <= c.threads
    ensures Reachable(c, Mixed<T>(c, c.threads, Exit, n, Finished, Test, Waking(0)))
  {
    if n == 1 {
      ReachFirstExiting<T>(c);
    } else {
      ReachOthersFinished<T>(c, n - 1);
      var s := Mixed<T>(c, c.threads, Exit, n - 1, Finished, Test, Waking(0));
      var t := Mixed<T>(c, c.threads, Exit, n, Finished, Test, Waking(0));
      WorkerToEnd(c, s, n - 1);
      assert t.workers == s.workers[n - 1 := Finished];
    }
  }

  /** All but the first have finished, the first is about to. */
  lemma ReachLastExiting<T>(c: Config)
    requires c.kind.ChunkHasher? && c.threads > 0
    ensures Reachable(c, Idle<T>(c, c.threads, Exit, Finished, Waking(0), 0, 0))
  {
    ReachOthersFinished<T>(c, c.threads);
    MixedEnd<T>(c, c.threads, Exit, Finished, Test, Waking(0));
  }

  /** With less room, the last worker can finish between the check and a push nobody will make room for. */
  lemma HasherCanDeadlock<T>(c: Config) returns (s: State<T>)
    requires c.kind.ChunkHasher? && c.threads > 0 && c.capacity < 2 * c.threads
    ensures Reachable(c, s) && Shaped(c, s) && Deadlocked(c, s)
  {
    ReachLastExiting<T>(c);
    var n := c.threads;
    if c.capacity < n {
      ReachWoken<T>(c, Exit, Finished, c.capacity);
      s := LastWorkerFinishes(c, Waking(c.capacity), c.capacity);
    } else {
      ReachWoken<T>(c, Exit, Finished, n);
      ReachNext(c, Idle<T>(c, n, Exit, Finished, Waking(n), n, 0), ControlStep,
                Idle(c, n, Exit, Finished, Checking(0, 0), n, 0));
      var m := c.capacity - n;
      ReachRewoken<T>(c, Finished, m);
      ReachNext(c, Idle<T>(c, n, Exit, Finished, Checking(m, 0), n + m, 0), ControlStep,
                Idle(c, n, Exit, Finished, Rewaking(m), n + m, 0));
      s := LastWorkerFinishes(c, Rewaking(m), n + m);
    }
  }

  lemma LastWorkerFinishes<T>(c: Config, control: Control, queued: nat) returns (t: State<T>)
    requires c.kind.ChunkHasher? && c.threads > 0 && queued == c.capacity
    requires (control.Waking? && control.k < c.threads) || (control.Rewaking? && control.k < c.threads)
    requires Reachable(c, Idle<T>(c, c.threads, Exit, Finished, control, queued, 0))
    ensures Reachable(c, t) && Shaped(c, t) && Deadlocked(c, t)
  {
    var s := Idle<T>(c, c.threads, Exit, Finished, control, queued, 0);
    t := Goto(s, 0, Finished);
    hide Reachable;
    ReachNext(c, s, WorkerStep(0), t);
    assert forall i :: 0 <= i < c.threads ==> t.workers[i].Finished?;
  }

  // ---- The processor's clean-up ------------------------------------------------------------------------------

  /** Workers other than the first wait on the empty queue before anything is stopped. */
  lemma {:induction false} ReachOthersWaiting<T>(c: Config, n: nat)
    requires 1 <= n <= c.threads
    ensures Reachable(c, Mixed<T>(c, 0, Test, n, Pop, Test, Feeding))
  {
    if n == 1 {
      ReachInit<T>(c);
      MixedStart<T>(c, 0, Test, Pop, Test, Feeding);
    } else {
      ReachOthersWaiting<T>(c, n - 1);
      var s := Mixed<T>(c, 0, Test, n - 1, Pop, Test, Feeding);
      var t := Mixed<T>(c, 0, Test, n, Pop, Test, Feeding);
      assert t.workers == s.workers[n - 1 := Pop];
      ReachNext(c, s, WorkerStep(n - 1), t);
    }
  }

  /** The first worker is in its final clean-up while all others still wait on the empty queue. */
  lemma ReachCleaningUp<T>(c: Config)
    requires c.kind.QueueProcessor? && c.threads > 0
    ensures Reachable(c, Idle<T>(c, c.threads, Cleanup, Pop, Waking(0), 0, 0))
  {
    hide Reachable;
    var n := c.threads;
    ReachOthersWaiting<T>(c, n);
    MixedEnd<T>(c, 0, Test, Pop, Test, Feeding);
    ReachNext(c, Idle<T>(c, 0, Test, Pop, Feeding, 0, 0), ControlStep, Idle(c, 0, Test, Pop, Stopping(0), 0, 0));
    ReachStopped<T>(c, Test, Pop, n);
    var s := Idle<T>(c, n, Test, Pop, Waking(0), 0, 0);
    ReachNext(c, Idle<T>(c, n, Test, Pop, Stopping(n), 0, 0), ControlStep, s);
    WorkerToExit(c, s, 0);
    var u := Goto(s, 0, Exit);
    var t := Idle<T>(c, n, Cleanup, Pop, Waking(0), 0, 0);
    assert t.workers == u.workers[0 := Cleanup];
    ReachNext(c, u, WorkerStep(0), t);
  }

  /** A wake-up pushed now is taken by the cleaning worker. */
  lemma StealWakeUp<T>(c: Config, s: Control, t: Control, taken: nat)
    requires c.kind.QueueProcessor? && c.threads > 0 && c.capacity > 0
    requires (s.Waking? && s.k < c.threads && t == Waking(s.k + 1)) ||
               (s.Rewaking? && s.k < c.threads && t == Checking(s.k + 1, 0))
    requires Reachable(c, Idle<T>(c, c.threads, Cleanup, Pop, s, 0, taken))
    ensures Reachable(c, Idle<T>(c, c.threads, Cleanup, Pop, t, 0, taken + 1))
  {
    hide Reachable;
    var m := Idle<T>(c, c.threads, Cleanup, Pop, t, 1, taken);
    assert m.queue == [] + [Sentinel];
    ReachNext(c, Idle<T>(c, c.threads, Cleanup, Pop, s, 0, taken), ControlStep, m);
    var u := Idle<T>(c, c.threads, Cleanup, Pop, t, 0, taken + 1);
    assert u.queue == m.queue[1..] && u.used == m.used[0 := taken + 1];
    ReachNext(c, m, WorkerStep(0), u);
  }

  lemma {:induction false} ReachFirstStolen<T>(c: Config, n: nat)
    requires c.kind.QueueProcessor? && c.threads > 0 && c.capacity > 0 && n <= c.threads
    ensures Reachable(c, Idle<T>(c, c.threads, Cleanup, Pop, Waking(n), 0, n))
  {
    hide Reachable, Idle;
    if n == 0 {
      ReachCleaningUp<T>(c);
    } else {
      ReachFirstStolen<T>(c, n - 1);
      StealWakeUp<T>(c, Waking(n - 1), Waking(n), n - 1);
    }
  }

  lemma {:induction false} ReachAllStolen<T>(c: Config, n: nat)
    requires c.kind.QueueProcessor? && c.threads > 1 && c.capacity > 0 && n <= c.threads
    ensures Reachable(c, Idle<T>(c, c.threads, Cleanup, Pop, Checking(n, 0), 0, c.threads + n))
  {
    hide Reachable, Idle;
    if n == 0 {
      ReachFirstStolen<T>(c, c.threads);
      StartChecking<T>(c);
    } else {
      ReachAllStolen<T>(c, n - 1);
      SeeWorkerOne<T>(c, n - 1, Rewaking(n - 1));
      StealWakeUp<T>(c, Rewaking(n - 1), Checking(n, 0), c.threads + n - 1);
    }
  }

  lemma StartChecking<T>(c: Config)
    requires c.threads > 0 && Reachable(c, Idle<T>(c, c.threads, Cleanup, Pop, Waking(c.threads), 0, c.threads))
    ensures Reachable(c, Idle<T>(c, c.threads, Cleanup, Pop, Checking(0, 0), 0, c.threads))
  {
    hide Reachable;
    ReachNext(c, Idle<T>(c, c.threads, Cleanup, Pop, Waking(c.threads), 0, c.threads), ControlStep,
              Idle<T>(c, c.threads, Cleanup, Pop, Checking(0, 0), 0, c.threads));
  }

  /** The scan passes worker 0, which has set its flag, and stops at worker 1. */
  lemma SeeWorkerOne<T>(c: Config, n: nat, next: Control)
    requires c.threads > 1 && n <= c.threads && next == (if n < c.threads then Rewaking(n) else Joining(0))
    requires Reachable(c, Idle<T>(c, c.threads, Cleanup, Pop, Checking(n, 0), 0, c.threads + n))
    ensures Reachable(c, Idle<T>(c, c.threads, Cleanup, Pop, next, 0, c.threads + n))
  {
    hide Reachable;
    var taken := c.threads + n;
    var m := Idle<T>(c, c.threads, Cleanup, Pop, Checking(n, 1), 0, taken);
    ReachNext(c, Idle<T>(c, c.threads, Cleanup, Pop, Checking(n, 0), 0, taken), ControlStep, m);
    ReachNext(c, m, ControlStep, Idle<T>(c, c.threads, Cleanup, Pop, next, 0, taken));
  }

  /** Every wake-up taken by one worker's clean-up leaves the others waiting forever. */
  lemma ProcessorCanDeadlock<T>(c: Config) returns (s: State<T>)
    requires c.kind.QueueProcessor? && c.threads > 0 && (c.threads > 1 || c.capacity == 0)
    ensures Reachable(c, s) && Shaped(c, s) && Deadlocked(c, s)
  {
    hide Reachable, Idle;
    if c.capacity == 0 {
      ReachCleaningUp<T>(c);
      s := CleanerLeaves(c, Waking(0), 0);
    } else {
      ReachAllStolen<T>(c, c.threads);
      SeeWorkerOne<T>(c, c.threads, Joining(0));
      var u := CleanerLeaves<T>(c, Joining(0), 2 * c.threads);
      s := u.(control := Joining(1));
      ReachNext(c, u, ControlStep, s);
    }
  }

  lemma CleanerLeaves<T>(c: Config, control: Control, taken: nat) returns (t: State<T>)
    requires c.kind.QueueProcessor? && c.threads > 0
    requires (control == Waking(0) && c.capacity == 0) || (control == Joining(0) && c.threads > 1)
    requires Reachable(c, Idle<T>(c, c.threads, Cleanup, Pop, control, 0, taken))
    ensures Shaped(c, t) && Reachable(c, t) && t.control == control && t.queue == []
    ensures t.workers[0].Finished? && forall i :: 1 <= i < c.threads ==> t.workers[i].Pop?
    ensures control.Waking? ==> Deadlocked(c, t)
  {
    var s := Idle<T>(c, c.threads, Cleanup, Pop, control, 0, taken);
    t := Goto(s, 0, Finished);
    hide Reachable;
    ReachNext(c, s, WorkerStep(0), t);
  }
}
