/**
 * The worker pools of the hashing pipeline as interleaved steps: a bounded queue, worker threads, and the thread that
 * feeds, stops and joins them. `ChunkHasher` is chunk_hasher_single_buffer::run under chunk_processor_base,
 * `QueueProcessor` is concurrent_queue_processor. No run is cancelled.
 */
module PoolProtocol {
  import opened Options

  datatype Kind = ChunkHasher | QueueProcessor

  datatype Config = Config(kind: Kind, threads: nat, capacity: nat)

  /** A queue element: work, or the value `wait` pushes to wake a worker. */
  datatype Slot<T> = Work(item: T) | Sentinel

  /**
   * Where a worker is: at the stop test, in `pop`, working, in the drain loop, about to set its done flag, cleaning up.
   */
  datatype Pc<T> = Test | Pop | Busy(item: T) | Drain | DrainBusy(item: T) | Exit | Cleanup | Finished
  {
    /** The worker has set its `done_` flag. */
    predicate Done() { Cleanup? || Finished? }

    /** The worker has left its main loop. */
    predicate Left() { Drain? || DrainBusy? || Exit? || Cleanup? || Finished? }

    /** The worker will process nothing more. */
    predicate Through() { Exit? || Cleanup? || Finished? }
  }

  /**
   * Where the controlling thread is: pushing work, in `request_stop`, in the two wake-up loops of `wait` (the second
   * scans the done flags before each push), or joining.
   */
  datatype Control =
    | Feeding
    | Stopping(k: nat)
    | Waking(k: nat)
    | Checking(k: nat, j: nat)
    | Rewaking(k: nat)
    | Joining(k: nat)
    | Joined

  /**
   * `log`, `used` and `pushed` record what has been processed and how many sentinels each worker took and `wait`
   * pushed.
   */
  datatype State<T> = State(todo: seq<T>, queue: seq<Slot<T>>, stop: seq<bool>, workers: seq<Pc<T>>, control: Control,
                            log: seq<T>, used: seq<nat>, pushed: nat, fault: bool)

  datatype Action = ControlStep | WorkerStep(i: nat)

  function Init<T>(c: Config, work: seq<T>): State<T> {
    State(work, [], seq(c.threads, _ => false), seq(c.threads, _ => Test), Feeding, [], seq(c.threads, _ => 0), 0,
          false)
  }

  /** One entry per thread, and the controlling thread's counters in range. */
  ghost predicate Shaped<T>(c: Config, s: State<T>) {
    && c.threads > 0
    && |s.stop| == |s.workers| == |s.used| == c.threads
    && match s.control
       case Feeding => true
       case Stopping(k) => k <= c.threads
       case Waking(k) => k <= c.threads
       case Checking(k, j) => k <= c.threads && j <= c.threads
       case Rewaking(k) => k < c.threads
       case Joining(k) => k <= c.threads
       case Joined => true
  }

  // ---- Steps -------------------------------------------------------------------------------------------------

  /** `push` waits while the queue is full, `pop` while it is empty, `join` until the thread has finished. */
  ghost predicate Enabled<T>(c: Config, s: State<T>, a: Action)
    requires Shaped(c, s)
  {
    match a
    case ControlStep => (
      match s.control
      case Feeding => s.todo == [] || |s.queue| < c.capacity
      case Stopping(k) => true
      case Waking(k) => k == c.threads || |s.queue| < c.capacity
      case Checking(k, j) => true
      case Rewaking(k) => c.kind.QueueProcessor? || |s.queue| < c.capacity
      case Joining(k) => k == c.threads || s.workers[k].Finished?
      case Joined => false)
    case WorkerStep(i) =>
      i < c.threads && !s.workers[i].Finished? && (s.workers[i].Pop? ==> s.queue != [])
  }

  function PushSentinel<T>(s: State<T>): State<T> {
    s.(queue := s.queue + [Sentinel], pushed := s.pushed + 1)
  }

  ghost function NextControl<T>(c: Config, s: State<T>): State<T>
    requires Shaped(c, s) && Enabled(c, s, ControlStep)
  {
    match s.control
    case Feeding =>
      if s.todo != [] then s.(queue := s.queue + [Work(s.todo[0])], todo := s.todo[1..])
      else s.(control := Stopping(0))
    case Stopping(k) =>
      if k < c.threads then s.(stop := s.stop[k := true], control := Stopping(k + 1))
      else s.(control := Waking(0))
    case Waking(k) =>
      if k < c.threads then PushSentinel(s).(control := Waking(k + 1))
      else s.(control := Checking(0, 0))
    case Checking(k, j) =>
      if j == c.threads then s.(control := Joining(0))
      else if s.workers[j].Done() then s.(control := Checking(k, j + 1))
      else if k < c.threads then s.(control := Rewaking(k))
      else s.(control := Joining(0))
    case Rewaking(k) =>
      // the processor's `try_push` gives up on a full queue
      if |s.queue| < c.capacity || c.kind.ChunkHasher? then PushSentinel(s).(control := Checking(k + 1, 0))
      else s.(control := Checking(k + 1, 0))
    case Joining(k) =>
      if k < c.threads then s.(control := Joining(k + 1))
      else s.(control := Joined, fault := s.fault || exists i :: 0 <= i < c.threads && !s.workers[i].Done())
    case Joined => s
  }

  function Goto<T>(s: State<T>, i: nat, pc: Pc<T>): State<T>
    requires i < |s.workers|
  {
    s.(workers := s.workers[i := pc])
  }

  function TakeSentinel<T>(s: State<T>, i: nat): State<T>
    requires s.queue != [] && i < |s.used|
  {
    s.(queue := s.queue[1..], used := s.used[i := s.used[i] + 1])
  }

  ghost function NextWorker<T>(c: Config, s: State<T>, i: nat): State<T>
    requires Shaped(c, s) && Enabled(c, s, WorkerStep(i))
  {
    var rest := s.(queue := if s.queue == [] then [] else s.queue[1..]);
    match s.workers[i]
    case Test => if s.stop[i] then Goto(s, i, Drain) else Goto(s, i, Pop)
    case Pop =>
      if s.queue[0].Work? then Goto(rest, i, Busy(s.queue[0].item))
      else if c.kind.ChunkHasher? then
        // the hasher checks that a wake-up only comes after the stop request
        Goto(TakeSentinel(s, i), i, Drain).(fault := s.fault || !s.stop[i])
      else Goto(TakeSentinel(s, i), i, Test)
    case Busy(item) => Goto(s, i, Test).(log := s.log + [item])
    case Drain =>
      if s.queue == [] then Goto(s, i, Exit)
      else if s.queue[0].Work? then Goto(rest, i, DrainBusy(s.queue[0].item))
      else Goto(TakeSentinel(s, i), i, Exit)
    case DrainBusy(item) => Goto(s, i, Drain).(log := s.log + [item])
    case Exit => Goto(s, i, if c.kind.ChunkHasher? then Finished else Cleanup)
    case Cleanup =>
      if s.queue == [] then Goto(s, i, Finished)
      // the processor checks that only wake-ups are left over
      else if s.queue[0].Work? then rest.(fault := true)
      else TakeSentinel(s, i)
    case Finished => s
  }

  ghost function Next<T>(c: Config, s: State<T>, a: Action): State<T>
    requires Shaped(c, s) && Enabled(c, s, a)
  {
    match a
    case ControlStep => NextControl(c, s)
    case WorkerStep(i) => NextWorker(c, s, i)
  }

  /** The state after a schedule, if every step of it can be taken. */
  ghost function Exec<T>(c: Config, s: State<T>, schedule: seq<Action>): Option<State<T>> {
    if schedule == [] then Some(s)
    else
      var k := |schedule| - 1;
      var before := Exec(c, s, schedule[..k]);
      if before.None? || !Shaped(c, before.value) || !Enabled(c, before.value, schedule[k]) then None
      else Some(Next(c, before.value, schedule[k]))
  }

  ghost predicate Deadlocked<T>(c: Config, s: State<T>)
    requires Shaped(c, s)
  {
    !s.control.Joined? && forall a :: !Enabled(c, s, a)
  }

  // ---- The invariant -----------------------------------------------------------------------------------------

  predicate Fed<T>(s: State<T>) { !s.control.Feeding? }

  predicate AllStopped<T>(s: State<T>) { !s.control.Feeding? && !s.control.Stopping? }

  predicate IsSentinel<T>(x: Slot<T>) { x.Sentinel? }

  function Sentinels<T>(queue: seq<Slot<T>>): nat {
    if queue == [] then 0 else Sentinels(queue[..|queue| - 1]) + if queue[|queue| - 1].Sentinel? then 1 else 0
  }

  function Sum(s: seq<nat>): nat {
    if s == [] then 0 else Sum(s[..|s| - 1]) + s[|s| - 1]
  }

  /** How often an item is queued, and how often a worker holds it. */
  ghost function QueuedWork<T>(queue: seq<Slot<T>>, x: T): nat {
    if queue == [] then 0
    else QueuedWork(queue[..|queue| - 1], x) + SlotWork(queue[|queue| - 1], x)
  }

  ghost function SlotWork<T>(slot: Slot<T>, x: T): nat {
    if slot == Work(x) then 1 else 0
  }

  ghost function InHand<T>(pc: Pc<T>, x: T): nat {
    if pc == Busy(x) || pc == DrainBusy(x) then 1 else 0
  }

  ghost function HeldWork<T>(workers: seq<Pc<T>>, x: T): nat {
    if workers == [] then 0 else HeldWork(workers[..|workers| - 1], x) + InHand(workers[|workers| - 1], x)
  }

  ghost function Count<T>(s: seq<T>, x: T): nat {
    multiset(s)[x]
  }

  /** Stop flags follow the controlling thread, and only a stopped worker leaves its main loop. */
  ghost predicate StopInv<T>(c: Config, s: State<T>)
    requires Shaped(c, s)
  {
    && (Fed(s) ==> s.todo == [])
    && (forall i :: 0 <= i < c.threads && s.stop[i] ==> Fed(s))
    && (forall i :: 0 <= i < c.threads && (AllStopped(s) || (s.control.Stopping? && i < s.control.k)) ==> s.stop[i])
    && (forall i :: 0 <= i < c.threads && s.workers[i].Left() ==> s.stop[i])
  }

  /** Wake-ups stand behind all work, and exist only once every worker is stopped. */
  ghost predicate QueueInv<T>(c: Config, s: State<T>)
    requires Shaped(c, s)
  {
    && (forall i, j :: 0 <= i < j < |s.queue| && IsSentinel(s.queue[i]) ==> IsSentinel(s.queue[j]))
    && (forall i :: 0 <= i < |s.queue| && IsSentinel(s.queue[i]) ==> AllStopped(s))
  }

  /** A worker that will process nothing more leaves no work behind. */
  ghost predicate ThroughInv<T>(c: Config, s: State<T>)
    requires Shaped(c, s)
  {
    forall i, j :: 0 <= i < c.threads && s.workers[i].Through() && 0 <= j < |s.queue| ==> IsSentinel(s.queue[j])
  }

  /** No item is lost or duplicated. */
  ghost predicate WorkInv<T(!new)>(s: State<T>, work: seq<T>) {
    forall x: T :: Count(work, x) == Located(s, x)
  }

  ghost function Located<T>(s: State<T>, x: T): nat {
    Count(s.todo, x) + QueuedWork(s.queue, x) + HeldWork(s.workers, x) + Count(s.log, x)
  }

  /** How many wake-ups have been pushed, and how many a worker can have taken. */
  ghost predicate CountInv<T>(c: Config, s: State<T>)
    requires Shaped(c, s)
  {
    && s.pushed == Sentinels(s.queue) + Sum(s.used)
    && (forall i :: 0 <= i < c.threads ==> UsedOk(c, s.workers[i], s.used[i], s.stop[i]))
    && ControlInv(c, s)
  }

  /** What the controlling thread has pushed, and which workers it has seen done. */
  ghost predicate ControlInv<T>(c: Config, s: State<T>)
    requires Shaped(c, s)
  {
    match s.control
    case Feeding => s.pushed == 0
    case Stopping(k) => s.pushed == 0
    case Waking(k) => s.pushed == k
    case Checking(k, j) => PushedAtLeast(c, s, c.threads + k) && SeenDone(s, j)
    case Rewaking(k) => PushedAtLeast(c, s, c.threads + k)
    case Joining(k) => s.pushed >= c.threads && (FullyWoken(c, s) || SeenDone(s, c.threads)) && SeenFinished(s, k)
    case Joined => SeenFinished(s, c.threads)
  }

  ghost predicate SeenDone<T>(s: State<T>, n: nat)
    requires n <= |s.workers|
  {
    forall i :: 0 <= i < n ==> s.workers[i].Done()
  }

  ghost predicate SeenFinished<T>(s: State<T>, n: nat)
    requires n <= |s.workers|
  {
    forall i :: 0 <= i < n ==> s.workers[i].Finished?
  }

  ghost predicate PushedAtLeast<T>(c: Config, s: State<T>, n: nat) {
    if c.kind.ChunkHasher? then s.pushed == n else c.threads <= s.pushed <= n
  }

  ghost predicate FullyWoken<T>(c: Config, s: State<T>) {
    c.kind.ChunkHasher? ==> s.pushed == 2 * c.threads
  }

  /** One wake-up can end a worker's main loop and one its drain loop; a processor's clean-up takes any number. */
  predicate UsedOk<T>(c: Config, pc: Pc<T>, used: nat, stopped: bool) {
    && (used > 0 ==> stopped)
    && match pc
       case Test => if c.kind.ChunkHasher? then used == 0 else used <= 1
       case Pop => used == 0
       case Busy(_) => used == 0
       case Drain => used <= 1
       case DrainBusy(_) => used <= 1
       case Exit => used <= 2
       case Cleanup => c.kind.QueueProcessor?
       case Finished => c.kind.ChunkHasher? ==> used <= 2
  }

  ghost predicate Inv<T(!new)>(c: Config, s: State<T>, work: seq<T>) {
    && Shaped(c, s) && !s.fault
    && StopInv(c, s) && QueueInv(c, s) && ThroughInv(c, s) && WorkInv(s, work) && CountInv(c, s)
  }

  // ---- Sums over the threads and the queue -------------------------------------------------------------------

  lemma {:induction false} SumUpdate(s: seq<nat>, i: nat, v: nat)
    requires i < |s|
    ensures Sum(s[i := v]) + s[i] == Sum(s) + v
  {
    var k := |s| - 1;
    if i < k {
      SumUpdate(s[..k], i, v);
      assert s[i := v][..k] == s[..k][i := v];
    } else {
      assert s[i := v][..k] == s[..k];
    }
  }

  lemma {:induction false} SumOfZeros(n: nat)
    ensures Sum(seq(n, _ => 0)) == 0
  {
    if n > 0 {
      SumOfZeros(n - 1);
      assert seq(n, _ => 0)[..n - 1] == seq(n - 1, _ => 0);
    }
  }

  lemma {:induction false} SumBound(s: seq<nat>, b: nat, k: nat)
    requires k < |s| && s[k] == 0 && forall i :: 0 <= i < |s| ==> s[i] <= b
    ensures Sum(s) <= (|s| - 1) * b
  {
    var n := |s| - 1;
    if k < n {
      SumBound(s[..n], b, k);
      assert (n - 1) * b + b == n * b;
    } else {
      SumAtMost(s[..n], b);
    }
  }

  lemma {:induction false} SumAtMost(s: seq<nat>, b: nat)
    requires forall i :: 0 <= i < |s| ==> s[i] <= b
    ensures Sum(s) <= |s| * b
  {
    if s != [] {
      var n := |s| - 1;
      SumAtMost(s[..n], b);
      assert n * b + b == (n + 1) * b;
    }
  }

  /** Taking the front of the queue. */
  lemma {:induction false} TakeFront<T>(queue: seq<Slot<T>>)
    requires queue != []
    ensures Sentinels(queue) == Sentinels(queue[1..]) + if queue[0].Sentinel? then 1 else 0
  {
    var k := |queue| - 1;
    if k > 0 {
      TakeFront(queue[..k]);
      assert queue[..k][1..] == queue[1..][..k - 1];
      assert queue[1..][k - 1] == queue[k];
    } else {
      assert queue[..k] == [] && queue[1..] == [];
    }
  }

  lemma {:induction false} TakeFrontWork<T>(queue: seq<Slot<T>>, x: T)
    requires queue != []
    ensures QueuedWork(queue, x) == QueuedWork(queue[1..], x) + SlotWork(queue[0], x)
  {
    var k := |queue| - 1;
    if k > 0 {
      TakeFrontWork(queue[..k], x);
      assert queue[..k][1..] == queue[1..][..k - 1];
      assert queue[1..][k - 1] == queue[k];
    } else {
      assert queue[..k] == [] && queue[1..] == [];
    }
  }

  lemma PutBack<T>(queue: seq<Slot<T>>, slot: Slot<T>)
    ensures Sentinels(queue + [slot]) == Sentinels(queue) + if slot.Sentinel? then 1 else 0
    ensures forall x: T :: QueuedWork(queue + [slot], x) == QueuedWork(queue, x) + SlotWork(slot, x)
  {
    assert (queue + [slot])[..|queue|] == queue;
  }

  lemma {:induction false} NoWorkQueued<T>(queue: seq<Slot<T>>, x: T)
    requires forall j :: 0 <= j < |queue| ==> IsSentinel(queue[j])
    ensures QueuedWork(queue, x) == 0
  {
    if queue != [] {
      NoWorkQueued(queue[..|queue| - 1], x);
    }
  }

  lemma {:induction false} OnlySentinels<T>(queue: seq<Slot<T>>)
    requires forall j :: 0 <= j < |queue| ==> IsSentinel(queue[j])
    ensures Sentinels(queue) == |queue|
  {
    if queue != [] {
      OnlySentinels(queue[..|queue| - 1]);
    }
  }

  lemma {:induction false} HeldUpdate<T>(workers: seq<Pc<T>>, i: nat, pc: Pc<T>, x: T)
    requires i < |workers|
    ensures HeldWork(workers[i := pc], x) + InHand(workers[i], x) == HeldWork(workers, x) + InHand(pc, x)
  {
    var k := |workers| - 1;
    if i < k {
      HeldUpdate(workers[..k], i, pc, x);
      assert workers[i := pc][..k] == workers[..k][i := pc];
    } else {
      assert workers[i := pc][..k] == workers[..k];
    }
  }

  lemma {:induction false} NothingHeld<T>(workers: seq<Pc<T>>, x: T)
    requires forall i :: 0 <= i < |workers| ==> InHand(workers[i], x) == 0
    ensures HeldWork(workers, x) == 0
  {
    if workers != [] {
      NothingHeld(workers[..|workers| - 1], x);
    }
  }

  // ---- Every step keeps the invariant ------------------------------------------------------------------------

  lemma InitInv<T(!new)>(c: Config, work: seq<T>)
    requires c.threads > 0
    ensures Inv(c, Init(c, work), work)
  {
    SumOfZeros(c.threads);
    forall x: T
      ensures Count(work, x) == Located(Init(c, work), x)
    {
      NothingHeld(Init(c, work).workers, x);
    }
  }

  /** A worker's step touches its own entry, and at most the front of the queue. */
  lemma WorkerFrame<T>(c: Config, s: State<T>, i: nat)
    requires Shaped(c, s) && Enabled(c, s, WorkerStep(i))
    ensures var t := NextWorker(c, s, i);
            && t.todo == s.todo && t.stop == s.stop && t.control == s.control && t.pushed == s.pushed
            && |t.workers| == |s.workers| && t.workers == s.workers[i := t.workers[i]]
            && |t.used| == |s.used| && t.used == s.used[i := t.used[i]]
            && ((t.queue == s.queue && t.used == s.used) || (s.queue != [] && t.queue == s.queue[1..]))
            && (t.workers[i].Left() ==> s.workers[i].Left() || s.stop[i] || (s.queue != [] && IsSentinel(s.queue[0])))
            && (t.workers[i].Through() ==> s.workers[i].Through() || s.queue == [] || IsSentinel(s.queue[0]))
  {
  }

  /** A step of the controlling thread leaves the workers alone and adds at most one element to the queue. */
  lemma ControlFrame<T>(c: Config, s: State<T>)
    requires Shaped(c, s) && Enabled(c, s, ControlStep)
    ensures var t := NextControl(c, s);
            && Shaped(c, t) && t.workers == s.workers && t.used == s.used && t.log == s.log
            && (Fed(s) ==> Fed(t) && t.todo == s.todo)
            && (AllStopped(s) ==> AllStopped(t) && t.todo == s.todo && t.stop == s.stop)
            && ((t.queue == s.queue && t.pushed == s.pushed && t.todo == s.todo)
                || (s.control.Feeding? && s.todo != [] &&
                    t == s.(queue := s.queue + [Work(s.todo[0])], todo := s.todo[1..]))
                || (AllStopped(s) && t.queue == s.queue + [Sentinel] && t.pushed == s.pushed + 1 && t.todo == s.todo))
  {
  }

  lemma ControlKeepsStop<T>(c: Config, s: State<T>)
    requires Shaped(c, s) && Enabled(c, s, ControlStep) && StopInv(c, s)
    ensures Shaped(c, NextControl(c, s)) && StopInv(c, NextControl(c, s))
  {
    match s.control
    case Feeding =>
    case Stopping(k) =>
    case _ => hide NextControl; ControlFrame(c, s);
  }

  lemma StepKeepsStop<T>(c: Config, s: State<T>, a: Action)
    requires Shaped(c, s) && Enabled(c, s, a) && StopInv(c, s) && QueueInv(c, s)
    ensures Shaped(c, Next(c, s, a)) && StopInv(c, Next(c, s, a))
  {
    hide NextWorker, NextControl;
    match a {
      case ControlStep => ControlKeepsStop(c, s);
      case WorkerStep(i) => WorkerFrame(c, s, i);
    }
  }

  lemma StepKeepsQueue<T>(c: Config, s: State<T>, a: Action)
    requires Shaped(c, s) && Enabled(c, s, a) && StopInv(c, s) && QueueInv(c, s)
    ensures Shaped(c, Next(c, s, a)) && QueueInv(c, Next(c, s, a))
  {
    hide NextWorker, NextControl, StopInv;
    match a {
      case ControlStep => ControlFrame(c, s);
      case WorkerStep(i) => WorkerFrame(c, s, i);
    }
  }

  lemma StepKeepsThrough<T>(c: Config, s: State<T>, a: Action)
    requires Shaped(c, s) && Enabled(c, s, a) && StopInv(c, s) && QueueInv(c, s) && ThroughInv(c, s)
    ensures Shaped(c, Next(c, s, a)) && ThroughInv(c, Next(c, s, a))
  {
    hide NextWorker, NextControl;
    match a {
      case ControlStep => ControlFrame(c, s);
      case WorkerStep(i) => WorkerFrame(c, s, i);
    }
  }

  /** Under the invariant none of the contracts in the code fails. */
  lemma StepKeepsContracts<T>(c: Config, s: State<T>, a: Action)
    requires Shaped(c, s) && Enabled(c, s, a) && StopInv(c, s) && QueueInv(c, s) && ThroughInv(c, s) && CountInv(c, s)
    requires !s.fault
    ensures !Next(c, s, a).fault
  {
    if a.WorkerStep? && s.queue != [] {
      assert s.workers[a.i].Through() ==> IsSentinel(s.queue[0]);
      assert IsSentinel(s.queue[0]) ==> AllStopped(s);
    }
  }

  lemma StepKeepsWork<T(!new)>(c: Config, s: State<T>, a: Action, work: seq<T>)
    requires Shaped(c, s) && Enabled(c, s, a) && ThroughInv(c, s) && WorkInv(s, work)
    ensures WorkInv(Next(c, s, a), work)
  {
    hide Next, Located;
    forall x: T
      ensures Count(work, x) == Located(Next(c, s, a), x)
    {
      assert Count(work, x) == Located(s, x);
      StepKeepsItem(c, s, a, x);
    }
  }

  /** A step moves items, it neither drops nor copies them. */
  lemma StepKeepsItem<T>(c: Config, s: State<T>, a: Action, x: T)
    requires Shaped(c, s) && Enabled(c, s, a) && ThroughInv(c, s)
    ensures Located(Next(c, s, a), x) == Located(s, x)
  {
    hide Sentinels, QueuedWork, HeldWork;
    match a {
      case ControlStep =>
        hide NextControl;
        ControlFrame(c, s);
        PutBack(s.queue, Sentinel);
        if s.control.Feeding? && s.todo != [] {
          PutBack(s.queue, Work(s.todo[0]));
          assert s.todo == [s.todo[0]] + s.todo[1..];
        }
      case WorkerStep(i) =>
        WorkerKeepsItem(c, s, i, x);
    }
  }

  lemma WorkerKeepsItem<T>(c: Config, s: State<T>, i: nat, x: T)
    requires Shaped(c, s) && Enabled(c, s, WorkerStep(i)) && ThroughInv(c, s)
    ensures Located(NextWorker(c, s, i), x) == Located(s, x)
  {
    hide Sentinels, QueuedWork, HeldWork, NextWorker;
    var t := NextWorker(c, s, i);
    if s.queue != [] {
      TakeFrontWork(s.queue, x);
    }
    WorkerFrame(c, s, i);
    WorkerMovesItem(c, s, i, x);
    HeldUpdate(s.workers, i, t.workers[i], x);
  }

  /** An item leaves the queue into a worker's hands, or a worker's hands into the log. */
  lemma WorkerMovesItem<T>(c: Config, s: State<T>, i: nat, x: T)
    requires Shaped(c, s) && Enabled(c, s, WorkerStep(i)) && ThroughInv(c, s)
    ensures var t := NextWorker(c, s, i);
            var taken := if |t.queue| == |s.queue| then 0 else SlotWork(s.queue[0], x);
            InHand(t.workers[i], x) + Count(t.log, x) == InHand(s.workers[i], x) + Count(s.log, x) + taken
  {
    hide Sentinels, Count;
    assert s.queue != [] && s.workers[i].Through() ==> IsSentinel(s.queue[0]);
    match s.workers[i]
    case Busy(item) => CountNext(s.log, item, x);
    case DrainBusy(item) => CountNext(s.log, item, x);
    case _ =>
  }

  lemma CountNext<T>(s: seq<T>, item: T, x: T)
    ensures Count(s + [item], x) == Count(s, x) + if item == x then 1 else 0
  {
  }

  lemma StepKeepsCount<T>(c: Config, s: State<T>, a: Action)
    requires Shaped(c, s) && Enabled(c, s, a) && StopInv(c, s) && QueueInv(c, s) && CountInv(c, s)
    ensures Shaped(c, Next(c, s, a)) && CountInv(c, Next(c, s, a))
  {
    hide NextControl, NextWorker, ControlInv, UsedOk, Sentinels, Sum;
    match a {
      case ControlStep =>
        ControlFrame(c, s);
        ControlKeepsControl(c, s);
        ControlKeepsUsed(c, s);
        ControlKeepsSentinels(c, s);
      case WorkerStep(i) =>
        WorkerFrame(c, s, i);
        WorkerKeepsControl(c, s, i);
        WorkerKeepsUsed(c, s, i);
        WorkerKeepsSentinels(c, s, i);
    }
  }

  lemma ControlKeepsSentinels<T>(c: Config, s: State<T>)
    requires Shaped(c, s) && Enabled(c, s, ControlStep)
    ensures NextControl(c, s).pushed + Sentinels(s.queue) == s.pushed + Sentinels(NextControl(c, s).queue)
  {
    hide Sentinels;
    PutBack(s.queue, Sentinel);
    if s.control.Feeding? && s.todo != [] {
      PutBack(s.queue, Work(s.todo[0]));
    }
  }

  lemma ControlKeepsControl<T>(c: Config, s: State<T>)
    requires Shaped(c, s) && Enabled(c, s, ControlStep) && ControlInv(c, s)
    ensures Shaped(c, NextControl(c, s)) && ControlInv(c, NextControl(c, s))
  {
  }

  lemma ControlKeepsUsed<T>(c: Config, s: State<T>)
    requires Shaped(c, s) && Enabled(c, s, ControlStep)
    requires forall i :: 0 <= i < c.threads ==> UsedOk(c, s.workers[i], s.used[i], s.stop[i])
    ensures Shaped(c, NextControl(c, s))
    ensures var t := NextControl(c, s); forall i :: 0 <= i < c.threads ==> UsedOk(c, t.workers[i], t.used[i], t.stop[i])
  {
    ControlFrame(c, s);
    hide NextControl;
    forall i | 0 <= i < c.threads
      ensures var t := NextControl(c, s); UsedOk(c, t.workers[i], t.used[i], t.stop[i])
    {
      assert UsedOk(c, s.workers[i], s.used[i], s.stop[i]);
      ControlKeepsStops(c, s, i);
    }
  }

  lemma ControlKeepsStops<T>(c: Config, s: State<T>, i: nat)
    requires Shaped(c, s) && Enabled(c, s, ControlStep) && i < c.threads
    ensures |NextControl(c, s).stop| == c.threads && (s.stop[i] ==> NextControl(c, s).stop[i])
  {
  }

  lemma WorkerKeepsControl<T>(c: Config, s: State<T>, i: nat)
    requires Shaped(c, s) && Enabled(c, s, WorkerStep(i)) && ControlInv(c, s)
    ensures Shaped(c, NextWorker(c, s, i)) && ControlInv(c, NextWorker(c, s, i))
  {
    WorkerFrame(c, s, i);
    WorkerStaysDone(c, s, i);
    hide NextWorker;
  }

  lemma WorkerStaysDone<T>(c: Config, s: State<T>, i: nat)
    requires Shaped(c, s) && Enabled(c, s, WorkerStep(i))
    ensures |NextWorker(c, s, i).workers| == c.threads
    ensures s.workers[i].Done() ==> NextWorker(c, s, i).workers[i].Done()
  {
  }

  lemma WorkerKeepsUsed<T>(c: Config, s: State<T>, i: nat)
    requires Shaped(c, s) && Enabled(c, s, WorkerStep(i)) && StopInv(c, s) && QueueInv(c, s)
    requires forall j :: 0 <= j < c.threads ==> UsedOk(c, s.workers[j], s.used[j], s.stop[j])
    ensures Shaped(c, NextWorker(c, s, i))
    ensures var t := NextWorker(c, s, i); forall j :: 0 <= j < c.threads ==>
              UsedOk(c, t.workers[j], t.used[j], t.stop[j])
  {
    WorkerFrame(c, s, i);
    OwnUsed(c, s, i);
    hide NextWorker, UsedOk, StopInv, QueueInv;
  }

  lemma OwnUsed<T>(c: Config, s: State<T>, i: nat)
    requires Shaped(c, s) && Enabled(c, s, WorkerStep(i)) && StopInv(c, s) && QueueInv(c, s)
    requires UsedOk(c, s.workers[i], s.used[i], s.stop[i])
    ensures var t := NextWorker(c, s, i);
            |t.workers| == |t.used| == |t.stop| == c.threads && UsedOk(c, t.workers[i], t.used[i], t.stop[i])
  {
    if s.queue != [] && IsSentinel(s.queue[0]) {
      assert AllStopped(s) && s.stop[i];
    }
    assert s.workers[i].Left() ==> s.stop[i];
  }

  lemma WorkerKeepsSentinels<T>(c: Config, s: State<T>, i: nat)
    requires Shaped(c, s) && Enabled(c, s, WorkerStep(i))
    ensures var t := NextWorker(c, s, i); Sentinels(t.queue) + Sum(t.used) == Sentinels(s.queue) + Sum(s.used)
  {
    hide Sentinels, Sum;
    if s.queue != [] {
      TakeFront(s.queue);
    }
    SumUpdate(s.used, i, s.used[i] + 1);
  }

  // ---- Runs --------------------------------------------------------------------------------------------------

  /** Every state of every run satisfies the invariant. */
  lemma {:induction false} RunInv<T(!new)>(c: Config, work: seq<T>, schedule: seq<Action>)
    requires c.threads > 0
    ensures var r := Exec(c, Init(c, work), schedule); r.Some? ==> Inv(c, r.value, work)
  {
    if schedule == [] {
      InitInv(c, work);
    } else {
      var k := |schedule| - 1;
      RunInv(c, work, schedule[..k]);
      var before := Exec(c, Init(c, work), schedule[..k]);
      if before.Some? && Enabled(c, before.value, schedule[k]) {
        StepInv(c, before.value, schedule[k], work);
      }
    }
  }

  lemma StepInv<T(!new)>(c: Config, s: State<T>, a: Action, work: seq<T>)
    requires Inv(c, s, work) && Enabled(c, s, a)
    ensures Inv(c, Next(c, s, a), work)
  {
    hide StopInv, QueueInv, ThroughInv, WorkInv, CountInv, Next, Enabled;
    StepKeepsStop(c, s, a);
    StepKeepsQueue(c, s, a);
    StepKeepsThrough(c, s, a);
    StepKeepsContracts(c, s, a);
    StepKeepsWork(c, s, a, work);
    StepKeepsCount(c, s, a);
  }

  /**
   * Safety: in every run, a worker that will process nothing more (in particular one that has exited) leaves no work
   * in the queue, no contract in the code fails, and once all workers are joined every item has been processed
   * exactly as often as it was pushed.
   */
  lemma NothingLost<T(!new)>(c: Config, work: seq<T>, schedule: seq<Action>)
    requires c.threads > 0 && Exec(c, Init(c, work), schedule).Some?
    ensures var s := Exec(c, Init(c, work), schedule).value;
            && Shaped(c, s) && !s.fault
            && (forall i, j :: 0 <= i < c.threads && s.workers[i].Through() && 0 <= j < |s.queue| ==>
                IsSentinel(s.queue[j]))
            && (s.control.Joined? ==> multiset(s.log) == multiset(work))
  {
    RunInv(c, work, schedule);
    var s := Exec(c, Init(c, work), schedule).value;
    if s.control.Joined? {
      AllProcessed(c, s, work);
    }
  }

  lemma AllProcessed<T(!new)>(c: Config, s: State<T>, work: seq<T>)
    requires Inv(c, s, work) && s.control.Joined?
    ensures multiset(s.log) == multiset(work)
  {
    hide QueueInv, Sentinels, Sum;
    assert s.workers[0].Through();
    forall x: T
      ensures multiset(s.log)[x] == multiset(work)[x]
    {
      NoWorkQueued(s.queue, x);
      NothingHeld(s.workers, x);
      assert Count(work, x) == Located(s, x);
    }
  }

  // ---- Every run ends ----------------------------------------------------------------------------------------

  function Rounds(threads: nat, n: nat): nat {
    if n == 0 then 0 else Rounds(threads, n - 1) + threads + 6
  }

  /** Steps the controlling thread can still take, a push weighing more than what it adds to the queue. */
  function ControlRank<T>(c: Config, s: State<T>): nat
    requires Shaped(c, s)
  {
    var t := c.threads;
    match s.control
    case Joined => 0
    case Joining(k) => t - k + 1
    case Rewaking(k) => t + 2 + Rounds(t, t - k)
    case Checking(k, j) => t + 2 + Rounds(t, t - k) + (t - j)
    case Waking(k) => t + 3 + Rounds(t, t) + t + 4 * (t - k)
    case Stopping(k) => t + 4 + Rounds(t, t) + 5 * t + (t - k)
    case Feeding => t + 5 + Rounds(t, t) + 6 * t + 4 * |s.todo|
  }

  function PcRank<T>(pc: Pc<T>): nat {
    match pc
    case Busy(_) => 6
    case Test => 5
    case Pop => 4
    case DrainBusy(_) => 4
    case Drain => 3
    case Exit => 2
    case Cleanup => 1
    case Finished => 0
  }

  function PcRanks<T>(workers: seq<Pc<T>>): seq<nat> {
    seq(|workers|, i requires 0 <= i < |workers| => PcRank(workers[i]))
  }

  function Measure<T>(c: Config, s: State<T>): nat
    requires Shaped(c, s)
  {
    ControlRank(c, s) + 3 * |s.queue| + Sum(PcRanks(s.workers))
  }

  lemma ControlDecreases<T>(c: Config, s: State<T>)
    requires Shaped(c, s) && Enabled(c, s, ControlStep)
    ensures Shaped(c, NextControl(c, s))
    ensures ControlRank(c, NextControl(c, s)) + 3 * |NextControl(c, s).queue| < ControlRank(c, s) + 3 * |s.queue|
  {
  }

  lemma WorkerDecreases<T>(c: Config, s: State<T>, i: nat)
    requires Shaped(c, s) && Enabled(c, s, WorkerStep(i))
    ensures |NextWorker(c, s, i).workers| == c.threads
    ensures var t := NextWorker(c, s, i);
            PcRank(t.workers[i]) + 3 * |t.queue| < PcRank(s.workers[i]) + 3 * |s.queue|
  {
  }

  lemma StepDecreases<T>(c: Config, s: State<T>, a: Action)
    requires Shaped(c, s) && Enabled(c, s, a)
    ensures Shaped(c, Next(c, s, a)) && Measure(c, Next(c, s, a)) < Measure(c, s)
  {
    hide NextControl, NextWorker, ControlRank, PcRank, Sum;
    match a {
      case ControlStep =>
        ControlFrame(c, s);
        ControlDecreases(c, s);
      case WorkerStep(i) =>
        WorkerFrame(c, s, i);
        WorkerDecreases(c, s, i);
        var t := NextWorker(c, s, i);
        SumUpdate(PcRanks(s.workers), i, PcRank(t.workers[i]));
        assert PcRanks(t.workers) == PcRanks(s.workers)[i := PcRank(t.workers[i])];
        SameControlRank(c, s, t);
    }
  }

  lemma SameControlRank<T>(c: Config, s: State<T>, t: State<T>)
    requires Shaped(c, s) && Shaped(c, t) && t.control == s.control && t.todo == s.todo
    ensures ControlRank(c, t) == ControlRank(c, s)
  {
  }

  /** No run is longer than a bound fixed by the work and the number of threads. */
  lemma {:induction false} RunsEnd<T(!new)>(c: Config, work: seq<T>, schedule: seq<Action>)
    requires c.threads > 0
    ensures var r := Exec(c, Init(c, work), schedule);
            r.Some? ==> Shaped(c, r.value) && |schedule| + Measure(c, r.value) <= Measure(c, Init(c, work))
  {
    hide Measure, Next, Enabled;
    if schedule != [] {
      var k := |schedule| - 1;
      RunsEnd(c, work, schedule[..k]);
      var before := Exec(c, Init(c, work), schedule[..k]);
      if before.Some? && Enabled(c, before.value, schedule[k]) {
        StepDecreases(c, before.value, schedule[k]);
      }
    }
  }

  // ---- When shutting down can deadlock -----------------------------------------------------------------------

  /** The configurations in which shutting down cannot deadlock. */
  predicate Safe(c: Config) {
    if c.kind.ChunkHasher? then c.capacity >= 2 * c.threads else c.threads == 1 && c.capacity >= 1
  }

  /** A worker that is not finished when the pushing is over still finds a wake-up. */
  lemma JoinNotStuck<T(!new)>(c: Config, s: State<T>, work: seq<T>, k: nat)
    requires Safe(c) && Inv(c, s, work) && s.control == Joining(k) && k < c.threads && s.workers[k].Pop?
    ensures s.queue != []
  {
    hide WorkInv, QueueInv, ThroughInv, StopInv, Sum;
    assert UsedOk(c, s.workers[k], s.used[k], s.stop[k]) && !s.workers[k].Done();
    if c.kind.ChunkHasher? {
      forall i | 0 <= i < c.threads
        ensures s.used[i] <= 2
      {
        assert UsedOk(c, s.workers[i], s.used[i], s.stop[i]);
      }
    } else {
      SingleSum(s.used);
    }
    if forall i :: 0 <= i < c.threads ==> s.used[i] <= 2 {
      SumBound(s.used, 2, k);
    }
  }

  lemma SingleSum(s: seq<nat>)
    requires |s| == 1
    ensures Sum(s) == s[0]
  {
    assert s[..0] == [];
  }

  /** When no worker can move the controlling thread can. */
  lemma ControlMoves<T(!new)>(c: Config, s: State<T>, work: seq<T>)
    requires Safe(c) && Inv(c, s, work) && !s.control.Joined?
    requires forall i :: 0 <= i < c.threads ==> s.workers[i].Finished? || (s.workers[i].Pop? && s.queue == [])
    ensures Enabled(c, s, ControlStep)
  {
    hide WorkInv, QueueInv, Sentinels, Sum, UsedOk;
    if |s.queue| >= c.capacity {
      assert s.workers[0].Through() && s.stop[0];
      assert forall j :: 0 <= j < |s.queue| ==> IsSentinel(s.queue[j]);
      OnlySentinels(s.queue);
    } else if s.control.Joining? && s.control.k < c.threads && s.workers[s.control.k].Pop? {
      JoinNotStuck(c, s, work, s.control.k);
    }
  }

  lemma NeverStuck<T(!new)>(c: Config, s: State<T>, work: seq<T>)
    requires Safe(c) && Inv(c, s, work)
    ensures !Deadlocked(c, s)
  {
    if !s.control.Joined? && !exists i: nat :: Enabled(c, s, WorkerStep(i)) {
      forall i: nat | i < c.threads
        ensures s.workers[i].Finished? || (s.workers[i].Pop? && s.queue == [])
      {
        assert !Enabled(c, s, WorkerStep(i));
      }
      ControlMoves(c, s, work);
    }
  }

  lemma ExecNext<T>(c: Config, s: State<T>, schedule: seq<Action>, a: Action)
    requires var r := Exec(c, s, schedule); r.Some? && Shaped(c, r.value) && Enabled(c, r.value, a)
    ensures Exec(c, s, schedule + [a]) == Some(Next(c, Exec(c, s, schedule).value, a))
  {
    assert (schedule + [a])[..|schedule|] == schedule;
  }
}
