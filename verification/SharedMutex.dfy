/** The reader-writer lock on one 32-bit atomic integer: threads interleave at every load, store, exchange and subtraction. */
module SharedMutex {

  const WRITING: int := -1
  const IDLE: int := 0

  /** A 32-bit counter cannot count as many readers as this. */
  const TOO_MANY: nat := 0x8000_0000

  /** Where a thread is between two atomic steps. */
  datatype Phase =
    | Outside
    | Locking
    | SharedLocking
    | SharedSeen(raw: int)
    | Reading
    | Escalating
    | EscalatingUnsafely
    | GivingUp
    | Writing

  /** The steps a thread can take; a weak compare-and-exchange may fail even if it could succeed. */
  datatype Action =
    | BeginLock | LockSucceeds | LockFails | Unlock
    | BeginSharedLock | Load | IncrementSucceeds | IncrementFails | UnlockShared
    | TryEscalateSucceeds | TryEscalateFails
    | BeginEscalate | EscalateSucceeds | EscalateFails
    | BeginUnsafeEscalate | UnsafeEscalateSucceeds | UnsafeEscalateFails | ReleaseAndLock
    | DeEscalate

  datatype System = System(state: int, threads: seq<Phase>)

  /** Holding the lock together with other readers. */
  predicate Shares(p: Phase) {
    p.Reading? || p.Escalating? || p.EscalatingUnsafely? || p.GivingUp?
  }

  function Moved(s: System, i: nat, state: int, p: Phase): System
    requires i < |s.threads|
  {
    System(state, s.threads[i := p])
  }

  /** Thread `i` takes the system from `s` to `t`. */
  ghost predicate Step(s: System, t: System, i: nat, a: Action) {
    i < |s.threads| &&
    var p := s.threads[i];
    match a
    case BeginLock => p.Outside? && t == Moved(s, i, s.state, Locking)
    case LockSucceeds => p.Locking? && s.state == IDLE && t == Moved(s, i, WRITING, Writing)
    case LockFails => p.Locking? && t == s
    case Unlock => p.Writing? && t == Moved(s, i, IDLE, Outside)
    case BeginSharedLock => p.Outside? && t == Moved(s, i, s.state, SharedLocking)
    case Load => p.SharedLocking? && t == if s.state == WRITING then s else Moved(s, i, s.state, SharedSeen(s.state))
    case IncrementSucceeds => p.SharedSeen? && s.state == p.raw && t == Moved(s, i, p.raw + 1, Reading)
    case IncrementFails => p.SharedSeen? && t == Moved(s, i, s.state, SharedLocking)
    case UnlockShared => p.Reading? && t == Moved(s, i, s.state - 1, Outside)
    case TryEscalateSucceeds => p.Reading? && s.state == 1 && t == Moved(s, i, WRITING, Writing)
    case TryEscalateFails => p.Reading? && t == s
    case BeginEscalate => p.Reading? && t == Moved(s, i, s.state, Escalating)
    case EscalateSucceeds => p.Escalating? && s.state == 1 && t == Moved(s, i, WRITING, Writing)
    case EscalateFails => p.Escalating? && t == s
    case BeginUnsafeEscalate => p.Reading? && t == Moved(s, i, s.state, EscalatingUnsafely)
    case UnsafeEscalateSucceeds => p.EscalatingUnsafely? && s.state == 1 && t == Moved(s, i, WRITING, Writing)
    case UnsafeEscalateFails => p.EscalatingUnsafely? && t == Moved(s, i, s.state, GivingUp)
    case ReleaseAndLock => p.GivingUp? && t == Moved(s, i, s.state - 1, Locking)
    case DeEscalate => p.Writing? && t == Moved(s, i, 1, Reading)
  }

  ghost function Readers(threads: seq<Phase>): nat {
    if threads == [] then 0 else Readers(threads[..|threads| - 1]) + if Shares(threads[|threads| - 1]) then 1 else 0
  }

  ghost function Writers(threads: seq<Phase>): nat {
    if threads == [] then 0 else Writers(threads[..|threads| - 1]) + if threads[|threads| - 1].Writing? then 1 else 0
  }

  /** Either one thread writes and nobody reads, or nobody writes and the integer counts the readers. A value that
      was read is no writer's, so that adding one to it never yields that of a writer or of nobody. */
  ghost predicate Inv(s: System) {
    && |s.threads| < TOO_MANY
    && (if s.state == WRITING then Writers(s.threads) == 1 && Readers(s.threads) == 0
        else Writers(s.threads) == 0 && s.state == Readers(s.threads))
    && forall i :: 0 <= i < |s.threads| && s.threads[i].SharedSeen? ==> s.threads[i].raw >= 0
  }

  lemma {:induction false} CountsUpdate(threads: seq<Phase>, i: nat, p: Phase)
    requires i < |threads|
    ensures Readers(threads[i := p]) + (if Shares(threads[i]) then 1 else 0) == Readers(threads) + if Shares(p) then 1 else 0
    ensures Writers(threads[i := p]) + (if threads[i].Writing? then 1 else 0) == Writers(threads) + if p.Writing? then 1 else 0
  {
    var n := |threads| - 1;
    if i < n {
      CountsUpdate(threads[..n], i, p);
      assert threads[i := p][..n] == threads[..n][i := p];
    } else {
      assert threads[i := p][..n] == threads[..n];
    }
  }

  lemma {:induction false} CountsBound(threads: seq<Phase>)
    ensures Readers(threads) <= |threads|
    ensures forall i :: 0 <= i < |threads| && Shares(threads[i]) ==> Readers(threads) > 0
    ensures forall i :: 0 <= i < |threads| && threads[i].Writing? ==> Writers(threads) > 0
    ensures forall i, j :: 0 <= i < j < |threads| && Shares(threads[i]) && Shares(threads[j]) ==> Readers(threads) > 1
    ensures forall i, j :: 0 <= i < j < |threads| && threads[i].Writing? && threads[j].Writing? ==> Writers(threads) > 1
  {
    if threads != [] {
      CountsBound(threads[..|threads| - 1]);
    }
  }

  /** Every step of every thread keeps the invariant. */
  lemma StepInv(s: System, t: System, i: nat, a: Action)
    requires Inv(s) && Step(s, t, i, a)
    ensures Inv(t)
  {
    CountsUpdate(s.threads, i, t.threads[i]);
    CountsBound(s.threads);
    assert t.threads == s.threads[i := t.threads[i]];
  }

  ghost predicate Initial(s: System) {
    s.state == IDLE && |s.threads| < TOO_MANY && forall i :: 0 <= i < |s.threads| ==> s.threads[i].Outside?
  }

  /** Some thread takes some step. */
  ghost predicate Next(s: System, t: System) {
    exists i: nat, a: Action :: Step(s, t, i, a)
  }

  ghost predicate Run(run: seq<System>) {
    run != [] && forall k :: 0 <= k < |run| - 1 ==> Next(run[k], run[k + 1])
  }

  lemma {:induction false} InitialCounts(threads: seq<Phase>)
    requires forall i :: 0 <= i < |threads| ==> threads[i].Outside?
    ensures Readers(threads) == 0 && Writers(threads) == 0
  {
    if threads != [] {
      InitialCounts(threads[..|threads| - 1]);
    }
  }

  lemma InitialInv(s: System)
    requires Initial(s)
    ensures Inv(s)
  {
    InitialCounts(s.threads);
  }

  /** The invariant is kept all along every run. */
  lemma {:induction false} RunInv(run: seq<System>, k: nat)
    requires Run(run) && (Initial(run[0]) || Inv(run[0])) && k < |run|
    ensures Inv(run[k])
  {
    if k == 0 {
      if Initial(run[0]) {
        InitialInv(run[0]);
      }
    } else {
      RunInv(run, k - 1);
      assert Next(run[k - 1], run[k - 1 + 1]);
      var i: nat, a: Action :| Step(run[k - 1], run[k], i, a);
      StepInv(run[k - 1], run[k], i, a);
    }
  }

  /** A writer is alone, in every state of every run; without one the integer is the number of readers. */
  lemma MutualExclusion(run: seq<System>, k: nat)
    requires Run(run) && Initial(run[0]) && k < |run|
    ensures forall i, j :: 0 <= i < |run[k].threads| && 0 <= j < |run[k].threads| && i != j && run[k].threads[i].Writing? ==>
      !run[k].threads[j].Writing? && !Shares(run[k].threads[j])
    ensures run[k].state >= 0 ==> run[k].state == Readers(run[k].threads)
    ensures run[k].state >= 0 <==> forall i :: 0 <= i < |run[k].threads| ==> !run[k].threads[i].Writing?
    ensures WRITING <= run[k].state < TOO_MANY
  {
    RunInv(run, k);
    CountsBound(run[k].threads);
    if run[k].state == WRITING {
      SomeWriter(run[k].threads);
    }
  }

  lemma {:induction false} SomeWriter(threads: seq<Phase>)
    requires Writers(threads) > 0
    ensures exists i :: 0 <= i < |threads| && threads[i].Writing?
  {
    var n := |threads| - 1;
    if !threads[n].Writing? {
      SomeWriter(threads[..n]);
      var i :| 0 <= i < n && threads[..n][i].Writing?;
      assert threads[i].Writing?;
    }
  }

  /** Escalating, by whichever call, can succeed exactly if no other thread reads. */
  lemma EscalatesAlone(s: System, i: nat)
    requires Inv(s) && i < |s.threads| && Shares(s.threads[i])
    ensures s.state == 1 <==> forall j :: 0 <= j < |s.threads| && j != i ==> !Shares(s.threads[j])
  {
    CountsBound(s.threads);
    CountsUpdate(s.threads, i, Outside);
    var others := s.threads[i := Outside];
    if Readers(others) == 0 {
      CountsBound(others);
      assert forall j :: 0 <= j < |s.threads| && j != i ==> others[j] == s.threads[j];
    } else {
      SomeReader(others);
      var j :| 0 <= j < |others| && Shares(others[j]);
      assert Shares(s.threads[j]);
    }
  }

  lemma {:induction false} SomeReader(threads: seq<Phase>)
    requires Readers(threads) > 0
    ensures exists i :: 0 <= i < |threads| && Shares(threads[i])
  {
    var n := |threads| - 1;
    if !Shares(threads[n]) {
      SomeReader(threads[..n]);
      var i :| 0 <= i < n && Shares(threads[..n][i]);
      assert Shares(threads[i]);
    }
  }

  /** Two threads that escalate at the same time wait for each other for ever, and nobody writes any more. */
  lemma {:induction false} EscalationDeadlock(run: seq<System>, k: nat, i: nat, j: nat)
    requires Run(run) && Inv(run[0]) && k < |run| && i < |run[0].threads| && j < |run[0].threads| && i != j
    requires run[0].threads[i].Escalating? && run[0].threads[j].Escalating?
    ensures |run[k].threads| == |run[0].threads|
    ensures run[k].threads[i].Escalating? && run[k].threads[j].Escalating? && run[k].state >= 2
  {
    RunInv(run, k);
    if k > 0 {
      EscalationDeadlock(run, k - 1, i, j);
      assert Next(run[k - 1], run[k - 1 + 1]);
    }
    CountsBound(run[k].threads);
  }

  ghost predicate Reachable(s: System) {
    exists run: seq<System> :: Run(run) && Initial(run[0]) && run[|run| - 1] == s
  }

  lemma ReachableNext(s: System, t: System, i: nat, a: Action)
    requires Reachable(s) && Step(s, t, i, a)
    ensures Reachable(t)
  {
    var run: seq<System> :| Run(run) && Initial(run[0]) && run[|run| - 1] == s;
    var longer := run + [t];
    forall k | 0 <= k < |longer| - 1
      ensures Next(longer[k], longer[k + 1])
    {
      assert k < |run| - 1 ==> Next(run[k], run[k + 1]);
    }
    assert Run(longer) && Initial(longer[0]) && longer[|longer| - 1] == t;
  }

  lemma {:induction false} TwoReaders() returns (s: System)
    ensures Reachable(s) && s == System(2, [Reading, Reading])
  {
    var s0 := System(0, [Outside, Outside]);
    var s1 := Moved(s0, 0, 0, SharedLocking);
    var s2 := Moved(s1, 0, 0, SharedSeen(0));
    var s3 := Moved(s2, 0, 1, Reading);
    var s4 := Moved(s3, 1, 1, SharedLocking);
    var s5 := Moved(s4, 1, 1, SharedSeen(1));
    s := Moved(s5, 1, 2, Reading);
    var run := [s0];
    assert Run(run) && Initial(run[0]) && run[|run| - 1] == s0;
    ReachableNext(s0, s1, 0, BeginSharedLock);
    ReachableNext(s1, s2, 0, Load);
    ReachableNext(s2, s3, 0, IncrementSucceeds);
    ReachableNext(s3, s4, 1, BeginSharedLock);
    ReachableNext(s4, s5, 1, Load);
    ReachableNext(s5, s, 1, IncrementSucceeds);
  }

  /** It comes to that: two threads take the lock shared and then both escalate. */
  lemma {:induction false} DeadlockReachable() returns (s: System)
    ensures Reachable(s) && |s.threads| == 2 && s.threads[0].Escalating? && s.threads[1].Escalating?
  {
    var readers := TwoReaders();
    var first := Moved(readers, 0, 2, Escalating);
    s := Moved(first, 1, 2, Escalating);
    ReachableNext(readers, first, 0, BeginEscalate);
    ReachableNext(first, s, 1, BeginEscalate);
  }

  /** The threads can go on so that thread `i` comes to write. */
  ghost predicate CanWrite(s: System, i: nat) {
    exists run: seq<System> :: Run(run) && run[0] == s && i < |run[|run| - 1].threads| && run[|run| - 1].threads[i].Writing?
  }

  lemma CanWriteBefore(s: System, t: System, i: nat)
    requires Next(s, t) && CanWrite(t, i)
    ensures CanWrite(s, i)
  {
    var run: seq<System> :| Run(run) && run[0] == t && i < |run[|run| - 1].threads| && run[|run| - 1].threads[i].Writing?;
    assert Run(run) && run != [];
    var longer := [s] + run;
    forall k | 0 <= k < |longer| - 1
      ensures Next(longer[k], longer[k + 1])
    {
      assert k > 0 ==> Next(run[k - 1], run[k - 1 + 1]);
    }
    assert Run(longer) && longer[0] == s && longer[|longer| - 1] == run[|run| - 1];
  }

  lemma WritesHere(s: System, i: nat)
    requires i < |s.threads| && s.threads[i].Writing?
    ensures CanWrite(s, i)
  {
    var run := [s];
    assert Run(run) && run[0] == s && run[|run| - 1].threads[i].Writing?;
  }

  /** One step after which the thread can come to write. */
  lemma CanWriteAfter(s: System, t: System, j: nat, a: Action, i: nat)
    requires Step(s, t, j, a) && CanWrite(t, i)
    ensures CanWrite(s, i)
  {
    assert Next(s, t);
    CanWriteBefore(s, t, i);
  }

  /** Nobody holds the lock. */
  ghost predicate Free(s: System) {
    forall i :: 0 <= i < |s.threads| ==> !s.threads[i].Writing? && !Shares(s.threads[i])
  }

  lemma FreeIsIdle(s: System)
    requires Inv(s)
    ensures Free(s) <==> s.state == IDLE
  {
    CountsBound(s.threads);
    if Writers(s.threads) > 0 {
      SomeWriter(s.threads);
    }
    if Readers(s.threads) > 0 {
      SomeReader(s.threads);
    }
  }

  /** A thread that knows the lock to have been read and can increment the count reads, and can then escalate alone. */
  lemma FirstReaderWrites(s: System, i: nat)
    requires s.state == IDLE && i < |s.threads| && s.threads[i] == SharedSeen(IDLE)
    ensures CanWrite(s, i)
  {
    var reading := Moved(s, i, 1, Reading);
    var writing := Moved(reading, i, WRITING, Writing);
    WritesHere(writing, i);
    CanWriteAfter(reading, writing, i, TryEscalateSucceeds, i);
    CanWriteAfter(s, reading, i, IncrementSucceeds, i);
  }

  lemma FreeCanWrite(s: System, i: nat)
    requires Inv(s) && Free(s) && i < |s.threads|
    ensures CanWrite(s, i)
  {
    FreeIsIdle(s);
    match s.threads[i] {
      case Outside =>
        var t := Moved(s, i, s.state, Locking);
        LockingWrites(t, i);
        CanWriteAfter(s, t, i, BeginLock, i);
      case Locking => LockingWrites(s, i);
      case SharedLocking =>
        var t := Moved(s, i, s.state, SharedSeen(s.state));
        FirstReaderWrites(t, i);
        CanWriteAfter(s, t, i, Load, i);
      case SharedSeen(raw) =>
        var again := Moved(s, i, s.state, SharedLocking);
        var seen := Moved(again, i, s.state, SharedSeen(s.state));
        FirstReaderWrites(seen, i);
        CanWriteAfter(again, seen, i, Load, i);
        CanWriteAfter(s, again, i, IncrementFails, i);
    }
  }

  lemma LockingWrites(s: System, i: nat)
    requires s.state == IDLE && i < |s.threads| && s.threads[i].Locking?
    ensures CanWrite(s, i)
  {
    var t := Moved(s, i, WRITING, Writing);
    WritesHere(t, i);
    CanWriteAfter(s, t, i, LockSucceeds, i);
  }

  /** After unlocking nobody holds the lock, and any thread can come to write. */
  lemma UnlockFrees(s: System, t: System, j: nat)
    requires Inv(s) && Step(s, t, j, Unlock)
    ensures Inv(t) && Free(t) && t.threads[j].Outside?
    ensures forall i: nat :: i < |t.threads| ==> CanWrite(t, i)
  {
    StepInv(s, t, j, Unlock);
    FreeIsIdle(t);
    forall i: nat | i < |t.threads|
      ensures CanWrite(t, i)
    {
      FreeCanWrite(t, i);
    }
  }

  /** After de-escalating the thread reads alone. */
  lemma DeEscalatedReads(s: System, t: System, j: nat)
    requires Inv(s) && Step(s, t, j, DeEscalate)
    ensures Inv(t) && t.threads[j].Reading?
    ensures forall i :: 0 <= i < |t.threads| && i != j ==> !t.threads[i].Writing? && !Shares(t.threads[i])
  {
    StepInv(s, t, j, DeEscalate);
    EscalatesAlone(t, j);
    CountsBound(t.threads);
  }

  ghost predicate OneEscalatesAtMost(s: System) {
    forall i, j :: 0 <= i < j < |s.threads| ==> !(s.threads[i].Escalating? && s.threads[j].Escalating?)
  }

  lemma WriterMakesWay(s: System, i: nat, j: nat)
    requires Inv(s) && i < |s.threads| && j < |s.threads| && s.threads[j].Writing?
    ensures CanWrite(s, i)
  {
    CountsBound(s.threads);
    var t := Moved(s, j, IDLE, Outside);
    UnlockFrees(s, t, j);
    CanWriteAfter(s, t, j, Unlock, i);
  }

  /** Readers can leave, one after the other, and the last one can escalate if it is to. */
  lemma {:induction false} HoldersMakeWay(s: System, i: nat)
    requires Inv(s) && i < |s.threads| && OneEscalatesAtMost(s)
    ensures CanWrite(s, i)
    decreases Readers(s.threads), 3
  {
    if j: nat :| j < |s.threads| && Shares(s.threads[j]) && !s.threads[j].Escalating? {
      ReaderLeaves(s, i, j);
    } else if j: nat :| j < |s.threads| && s.threads[j].Escalating? {
      EscalatesAlone(s, j);
      var t := Moved(s, j, WRITING, Writing);
      StepInv(s, t, j, EscalateSucceeds);
      WriterMakesWay(t, i, j);
      CanWriteAfter(s, t, j, EscalateSucceeds, i);
    } else if j: nat :| j < |s.threads| && s.threads[j].Writing? {
      WriterMakesWay(s, i, j);
    } else {
      FreeCanWrite(s, i);
    }
  }

  lemma {:induction false} ReaderLeaves(s: System, i: nat, j: nat)
    requires Inv(s) && i < |s.threads| && OneEscalatesAtMost(s)
    requires j < |s.threads| && Shares(s.threads[j]) && !s.threads[j].Escalating?
    ensures CanWrite(s, i)
    decreases Readers(s.threads), if s.threads[j].EscalatingUnsafely? then 2 else 1
  {
    CountsBound(s.threads);
    if s.threads[j].EscalatingUnsafely? {
      var t := Moved(s, j, s.state, GivingUp);
      StepInv(s, t, j, UnsafeEscalateFails);
      CountsUpdate(s.threads, j, GivingUp);
      ReaderLeaves(t, i, j);
      CanWriteAfter(s, t, j, UnsafeEscalateFails, i);
    } else {
      var left := if s.threads[j].Reading? then Outside else Locking;
      var a := if s.threads[j].Reading? then UnlockShared else ReleaseAndLock;
      var t := Moved(s, j, s.state - 1, left);
      StepInv(s, t, j, a);
      CountsUpdate(s.threads, j, left);
      HoldersMakeWay(t, i);
      CanWriteAfter(s, t, j, a, i);
    }
  }

  /** Wherever the threads have come to, all of them can still come to write exactly if at most one is escalating; with two
      of them none can. */
  lemma WritingPossible(s: System, i: nat)
    requires Reachable(s) && i < |s.threads|
    ensures CanWrite(s, i) <==> OneEscalatesAtMost(s)
  {
    var before: seq<System> :| Run(before) && Initial(before[0]) && before[|before| - 1] == s;
    RunInv(before, |before| - 1);
    if OneEscalatesAtMost(s) {
      HoldersMakeWay(s, i);
    } else {
      var j, k :| 0 <= j < k < |s.threads| && s.threads[j].Escalating? && s.threads[k].Escalating?;
      forall run: seq<System> | Run(run) && run[0] == s && i < |run[|run| - 1].threads|
        ensures !run[|run| - 1].threads[i].Writing?
      {
        EscalationDeadlock(run, |run| - 1, j, k);
        RunInv(run, |run| - 1);
        CountsBound(run[|run| - 1].threads);
      }
    }
  }

  /** So one that is escalating can exactly if no other one is. */
  lemma EscalationPossible(s: System, i: nat)
    requires Reachable(s) && i < |s.threads| && s.threads[i].Escalating?
    ensures CanWrite(s, i) <==> forall j :: 0 <= j < |s.threads| && j != i ==> !s.threads[j].Escalating?
  {
    WritingPossible(s, i);
  }
}
