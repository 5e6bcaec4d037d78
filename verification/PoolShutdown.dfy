/** When shutting a pool down cannot block, and that it then comes to its end. */
module PoolShutdown {
  import opened Options
  import opened Arith
  import opened PoolProtocol
  import opened PoolDeadlocks

  /** The state a run has reached, whatever its schedule, is not a deadlock. */
  ghost predicate AvoidsDeadlock<T>(c: Config, work: seq<T>, schedule: seq<Action>) {
    var r := Exec(c, Init(c, work), schedule);
    r.Some? ==> Shaped(c, r.value) && !Deadlocked(c, r.value)
  }

  ghost predicate NeverDeadlocks<T(!new)>(c: Config, work: seq<T>) {
    forall schedule :: AvoidsDeadlock(c, work, schedule)
  }

  /**
   * Shutting a pool down can never deadlock exactly when, for hashers, the queue has room for two wake-ups per
   * worker, and, for processors, there is a single worker.
   */
  lemma ShutdownDeadlocks<T(!new)>(c: Config)
    requires c.threads > 0
    ensures Safe(c) <==> forall work: seq<T> :: NeverDeadlocks(c, work)
  {
    if Safe(c) {
      forall work: seq<T>, schedule
        ensures AvoidsDeadlock(c, work, schedule)
      {
        RunInv(c, work, schedule);
        var r := Exec(c, Init(c, work), schedule);
        if r.Some? {
          NeverStuck(c, r.value, work);
        }
      }
    } else {
      var s: State<T>;
      if c.kind.ChunkHasher? {
        s := HasherCanDeadlock(c);
      } else {
        s := ProcessorCanDeadlock(c);
      }
      var schedule :| Exec(c, Init<T>(c, []), schedule) == Some(s);
      assert !AvoidsDeadlock<T>(c, [], schedule);
      assert !NeverDeadlocks<T>(c, []);
    }
  }

  /** The schedule can be run, and ends with every worker joined. */
  ghost predicate Joins<T>(c: Config, work: seq<T>, schedule: seq<Action>) {
    var r := Exec(c, Init(c, work), schedule);
    r.Some? && r.value.control.Joined?
  }

  lemma CanGoOn<T(!new)>(c: Config, work: seq<T>, schedule: seq<Action>)
    requires Safe(c) && c.threads > 0
    ensures Shaped(c, Init(c, work))
    ensures Exec(c, Init(c, work), schedule).Some? && !Joins(c, work, schedule) ==>
              exists a :: Exec(c, Init(c, work), schedule + [a]).Some?
  {
    var r := Exec(c, Init(c, work), schedule);
    RunInv(c, work, schedule);
    hide Exec, Next, Enabled, Safe;
    if r.Some? {
      NeverStuck(c, r.value, work);
      if !r.value.control.Joined? {
        var a :| Enabled(c, r.value, a);
        ExecNext(c, Init(c, work), schedule, a);
      }
    }
  }

  /**
   * Without deadlock every run can be carried on until all workers are joined, and together with the bound of `RunsEnd`
   * no run avoids that end forever.
   */
  lemma {:induction false} RunCompletes<T(!new)>(c: Config, work: seq<T>, schedule: seq<Action>)
    returns (whole: seq<Action>)
    requires Safe(c) && c.threads > 0
    ensures Exec(c, Init(c, work), schedule).Some? ==> schedule <= whole && Joins(c, work, whole)
    decreases Measure(c, Init(c, work)) - |schedule|
  {
    hide Exec, Init, Measure, Next, Enabled, Safe;
    CanGoOn(c, work, schedule);
    whole := schedule;
    if Exec(c, Init(c, work), schedule).Some? && !Joins(c, work, schedule) {
      var a :| Exec(c, Init(c, work), schedule + [a]).Some?;
      RunsEnd(c, work, schedule + [a]);
      whole := RunCompletes(c, work, schedule + [a]);
    }
  }

  // ---- The capacity rule of storage_hasher -------------------------------------------------------------------

  function MaxOf(a: nat, b: nat): nat { if a >= b then a else b }

  /** The capacity the constructor of storage_hasher picks. */
  function QueueCapacity(maxMemory: Option<nat>, ioBlockSize: nat, threads: nat): nat
    requires ioBlockSize > 0
  {
    if maxMemory.Some? then MaxOf(4, maxMemory.value / ioBlockSize) else MaxOf(4, 4 * threads)
  }

  /**
   * The capacity is at least four chunks, and beyond that four for every thread or as many as the memory holds: that
   * many chunks of the I/O block size fit, and one more would not.
   */
  lemma CapacityIs(maxMemory: Option<nat>, ioBlockSize: nat, threads: nat)
    requires ioBlockSize > 0
    ensures var capacity := QueueCapacity(maxMemory, ioBlockSize, threads);
            match maxMemory
            case None => capacity == if threads == 0 then 4 else threads + threads + threads + threads
            case Some(memory) => forall k: nat :: k <= capacity <==> k <= 4 || k * ioBlockSize <= memory
  {
    if maxMemory.Some? {
      forall k: nat
        ensures k <= maxMemory.value / ioBlockSize <==> k * ioBlockSize <= maxMemory.value
      {
        Fits(maxMemory.value, ioBlockSize, k);
      }
    }
  }

  lemma Fits(x: nat, y: nat, k: nat)
    requires y > 0
    ensures k <= x / y <==> k * y <= x
  {
    var q := x / y;
    assert q * y <= x < q * y + y;
    if k <= q {
      MulMonotone(k, q, y);
    } else {
      MulMonotone(q + 1, k, y);
      assert (q + 1) * y == q * y + y;
    }
  }

  /**
   * With the default capacity no run of the hashers deadlocks; with a memory limit this holds for two threads or enough
   * memory.
   */
  lemma CapacityRule<T(!new)>(maxMemory: Option<nat>, ioBlockSize: nat, threads: nat)
    requires ioBlockSize > 0 && threads > 0
    ensures var c := Config(ChunkHasher, threads, QueueCapacity(maxMemory, ioBlockSize, threads));
            (maxMemory.None? || threads <= 2 || maxMemory.value / ioBlockSize >= 2 * threads)
            <==> forall work: seq<T> :: NeverDeadlocks(c, work)
  {
    ShutdownDeadlocks<T>(Config(ChunkHasher, threads, QueueCapacity(maxMemory, ioBlockSize, threads)));
  }
}
