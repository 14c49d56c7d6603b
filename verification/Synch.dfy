/** kern/thread/synch.c: semaphores, locks and condition variables on one CPU. Interrupts are off inside
    each operation, so every operation is one atomic step, cut only where thread_sleep hands
    the CPU over. */
module Synch {
  import opened ThreadModel
  import opened PtrArray

  type Lock = nat
  type Cv = nat
  type Sem = nat

  // sleep addresses: distinct objects have distinct addresses
  function LockAddr(l: Lock): Addr { 4 * l }
  function CvAddr(c: Cv): Addr { 4 * c + 1 }
  function DeviceAddr(d: nat): Addr { 4 * d + 2 }
  function SemAddr(m: Sem): Addr { 4 * m + 3 }

  /** Where a thread is: in its own code, in the retry loop of lock_acquire or of P, or
      behind the thread_sleep of cv_wait. */
  datatype Pc = Run | Acquiring(l: Lock) | Waiting(c: Cv, lk: Lock) | Downing(m: Sem)

  /** holder is the lock's field (absent: NULL); owns records which acquisitions have returned
      to their callers and have not been released. */
  datatype Sys = Sys(ts: TS, holder: map<Lock, Tid>, pc: map<Tid, Pc>, owns: set<(Tid, Lock)>, sem: map<Sem, nat>)

  function PcOf(s: Sys, t: Tid): Pc { if t in s.pc then s.pc[t] else Run }

  function Count(s: Sys, m: Sem): nat { if m in s.sem then s.sem[m] else 0 }

  datatype Event =
    | Acquire(l: Lock) | Release(l: Lock)
    | Wait(c: Cv, l: Lock) | Signal(c: Cv, l: Lock) | Broadcast(c: Cv, l: Lock)
    | P(m: Sem)
    | V(m: Sem)       // by the current thread or an interrupt handler
    | Yield | Exit | Fork(t: Tid) | DeviceSleep(d: nat)
    | Resume          // a thread that was switched in goes on inside lock_acquire, P or cv_wait
    | Dispatch        // the scheduler picks the head of the run queue
    | Interrupt(a: Addr)   // a handler wakes the sleepers on a
    | Exorcise        // a thread that was switched in disposes of the zombies

  predicate Enabled(s: Sys, e: Event) {
    match e
    case Dispatch => s.ts.cur.None? && s.ts.ready != []
    case Interrupt(_) => s.ts.cur.None? || PcOf(s, s.ts.cur.value) == Run
    case V(_) => s.ts.cur.None? || PcOf(s, s.ts.cur.value) == Run
    case Resume => s.ts.cur.Some? && PcOf(s, s.ts.cur.value) != Run
    case Exorcise => s.ts.cur.Some?
    case Fork(t) =>
      s.ts.cur.Some? && PcOf(s, s.ts.cur.value) == Run && t !in Live(s.ts) && t !in s.ts.zombies && t !in s.pc
    case _ => s.ts.cur.Some? && PcOf(s, s.ts.cur.value) == Run
  }

  /** thread_sleep on a, up to the moment the CPU is free. */
  function Block(s: Sys, a: Addr, pc: Pc): Sys
    requires s.ts.cur.Some?
  {
    var t := s.ts.cur.value;
    s.(ts := Stashed(s.ts.(addr := s.ts.addr[t := a]), Sleep), pc := s.pc[t := pc])
  }

  /** One pass of lock_acquire: take the lock, or sleep until it may be free. */
  function DoAcquire(s: Sys, l: Lock): Sys
    requires s.ts.cur.Some?
  {
    var t := s.ts.cur.value;
    if l in s.holder then Block(s, LockAddr(l), Acquiring(l))
    else s.(holder := s.holder[l := t], pc := s.pc[t := Run], owns := s.owns + {(t, l)})
  }

  /** lock_release: does nothing unless the caller is the holder. */
  function DoRelease(s: Sys, l: Lock): Sys
    requires s.ts.cur.Some?
  {
    var t := s.ts.cur.value;
    if l in s.holder && s.holder[l] == t then
      s.(holder := s.holder - {l}, owns := s.owns - {(t, l)}, ts := WokenOne(s.ts, LockAddr(l)))
    else s
  }

  /** One pass of P: take one from the count, or sleep until there may be one. */
  function DoP(s: Sys, m: Sem): Sys
    requires s.ts.cur.Some?
  {
    var t := s.ts.cur.value;
    if Count(s, m) == 0 then Block(s, SemAddr(m), Downing(m))
    else s.(sem := s.sem[m := Count(s, m) - 1], pc := s.pc[t := Run])
  }

  function DoV(s: Sys, m: Sem): Sys {
    s.(sem := s.sem[m := Count(s, m) + 1], ts := WokenAll(s.ts, SemAddr(m)))
  }

  function Step(s: Sys, e: Event): Sys
    requires Enabled(s, e)
  {
    match e
    case Acquire(l) => DoAcquire(s, l)
    case Release(l) => DoRelease(s, l)
    case Wait(c, l) => Block(DoRelease(s, l), CvAddr(c), Waiting(c, l))
    // both of these also release the lock
    case Signal(c, l) => DoRelease(s.(ts := WokenOne(s.ts, CvAddr(c))), l)
    case Broadcast(c, l) => DoRelease(s.(ts := WokenAll(s.ts, CvAddr(c))), l)
    case P(m) => DoP(s, m)
    case V(m) => DoV(s, m)
    case Yield => s.(ts := Stashed(s.ts, Ready))
    case Exit => s.(ts := Stashed(s.ts, Zombie).(num := s.ts.num - 1))
    case Fork(t) => s.(ts := Forked(s.ts, t))
    case DeviceSleep(d) => Block(s, DeviceAddr(d), Run)
    case Resume =>
      (match PcOf(s, s.ts.cur.value)
       case Acquiring(l) => DoAcquire(s, l)
       case Waiting(c, l) => DoAcquire(s, l)
       case Downing(m) => DoP(s, m)
       case Run => s)
    case Dispatch => s.(ts := Scheduled(s.ts, []))
    case Interrupt(a) => s.(ts := WokenAll(s.ts, a))
    case Exorcise => s.(ts := s.ts.(zombies := []))
  }

  // ---------------------------------------------------------------- the invariant

  predicate Runnable(s: Sys, t: Tid) { t in s.ts.ready || s.ts.cur == Some(t) }

  /** Some thread that can run is in the retry loop for l. */
  ghost predicate HasRetry(s: Sys, l: Lock) {
    exists t :: Runnable(s, t) && PcOf(s, t) == Acquiring(l)
  }

  ghost predicate Owners(s: Sys) {
    && (forall l :: l in s.holder ==> (s.holder[l], l) in s.owns)
    && (forall t, l :: (t, l) in s.owns ==> l in s.holder && s.holder[l] == t)
  }

  /** What a sleeping thread sleeps on agrees with where it is in its code. */
  ghost predicate Sleepers(s: Sys) {
    forall t :: t in s.ts.sleepers ==>
      && t in s.ts.addr
      && (forall l :: s.ts.addr[t] == LockAddr(l) ==> PcOf(s, t) == Acquiring(l))
      && (forall l :: PcOf(s, t) == Acquiring(l) ==> s.ts.addr[t] == LockAddr(l))
  }

  /** No lost wake-up: a free lock that threads sleep on has a runnable thread about to retry it. */
  ghost predicate NoLostWakeup(s: Sys) {
    forall t, l :: t in s.ts.sleepers && On(s.ts.addr, t, LockAddr(l)) && l !in s.holder ==> HasRetry(s, l)
  }

  /** A thread sleeps on a semaphore only while its count is zero. */
  ghost predicate SemSleepers(s: Sys) {
    forall t, m :: t in s.ts.sleepers && On(s.ts.addr, t, SemAddr(m)) ==> Count(s, m) == 0
  }

  ghost predicate Inv(s: Sys) {
    Partition(s.ts) && Owners(s) && Sleepers(s) && NoLostWakeup(s) && SemSleepers(s)
  }

  /** Waking some sleepers keeps the invariant. */
  lemma WakeInv(s: Sys, ts': TS)
    requires Inv(s) && WakesSome(s.ts, ts') && Partition(ts')
    ensures Inv(s.(ts := ts'))
  {
    hide Partition, LockAddr, SemAddr;
    var s' := s.(ts := ts');
    forall t, l | t in s'.ts.sleepers && On(s'.ts.addr, t, LockAddr(l)) && l !in s'.holder
      ensures HasRetry(s', l)
    {
      var u :| Runnable(s, u) && PcOf(s, u) == Acquiring(l);
      assert Runnable(s', u) && PcOf(s', u) == Acquiring(l);
    }
  }

  /** When the current thread may go to sleep on a, to continue at pc. */
  ghost predicate MayBlock(s: Sys, a: Addr, pc: Pc) {
    && s.ts.cur.Some?
    && (forall l :: a == LockAddr(l) <==> pc == Acquiring(l))
    && (forall l :: pc == Acquiring(l) || PcOf(s, s.ts.cur.value) == Acquiring(l) ==> l in s.holder)
    && (forall m :: a == SemAddr(m) ==> Count(s, m) == 0)
  }

  lemma BlockInv(s: Sys, a: Addr, pc: Pc)
    requires Inv(s) && MayBlock(s, a, pc)
    ensures Inv(Block(s, a, pc))
  {
    hide Partition, LockAddr, SemAddr;
    var t, s' := s.ts.cur.value, Block(s, a, pc);
    var ts1 := s.ts.(addr := s.ts.addr[t := a]);
    AddrPartition(s.ts, s.ts.addr[t := a]);
    StashedPartition(ts1, Sleep);
    CurNotListed(s.ts, t);
    forall x, l | x in s'.ts.sleepers && On(s'.ts.addr, x, LockAddr(l)) && l !in s'.holder
      ensures HasRetry(s', l)
    {
      assert x != t && x in s.ts.sleepers && On(s.ts.addr, x, LockAddr(l));
      var u :| Runnable(s, u) && PcOf(s, u) == Acquiring(l);
      assert Runnable(s', u) && PcOf(s', u) == Acquiring(l);
    }
  }

  /** Taking a free lock. */
  lemma TakeInv(s: Sys, l: Lock)
    requires Inv(s) && s.ts.cur.Some? && l !in s.holder
    requires forall m :: PcOf(s, s.ts.cur.value) == Acquiring(m) ==> m == l
    ensures Inv(DoAcquire(s, l))
  {
    hide Partition, LockAddr, SemAddr;
    var t, s' := s.ts.cur.value, DoAcquire(s, l);
    CurNotListed(s.ts, t);
    forall x, m | x in s'.ts.sleepers && On(s'.ts.addr, x, LockAddr(m)) && m !in s'.holder
      ensures HasRetry(s', m)
    {
      var u :| Runnable(s, u) && PcOf(s, u) == Acquiring(m);
      assert Runnable(s', u) && PcOf(s', u) == Acquiring(m);
    }
  }

  lemma AcquireInv(s: Sys, l: Lock)
    requires Inv(s) && s.ts.cur.Some?
    requires forall m :: PcOf(s, s.ts.cur.value) == Acquiring(m) ==> m == l
    ensures Inv(DoAcquire(s, l))
  {
    if l in s.holder {
      BlockInv(s, LockAddr(l), Acquiring(l));
    } else {
      TakeInv(s, l);
    }
  }

  /** Releasing a lock wakes one of its sleepers, so the free lock has a retrier. */
  lemma ReleaseInv(s: Sys, l: Lock)
    requires Inv(s) && s.ts.cur.Some?
    ensures Inv(DoRelease(s, l)) && DoRelease(s, l).ts.cur == s.ts.cur && DoRelease(s, l).pc == s.pc
    ensures s.ts.cur.Some? ==> DoRelease(s, l).ts.addr == s.ts.addr
  {
    hide Partition, LockAddr, SemAddr, WokenOne;
    var t, s' := s.ts.cur.value, DoRelease(s, l);
    if l in s.holder && s.holder[l] == t {
      WokenOneWakes(s.ts, LockAddr(l));
      WakePartition(s.ts, LockAddr(l));
      forall x, m | x in s'.ts.sleepers && On(s'.ts.addr, x, LockAddr(m)) && m !in s'.holder
        ensures HasRetry(s', m)
      {
        assert x in s.ts.sleepers && On(s.ts.addr, x, LockAddr(m));
        if m == l {
          var u :| u in s.ts.sleepers && On(s.ts.addr, u, LockAddr(l)) && u in s'.ts.ready;
          assert Runnable(s', u) && PcOf(s', u) == Acquiring(l);
        } else {
          var u :| Runnable(s, u) && PcOf(s, u) == Acquiring(m);
          assert Runnable(s', u) && PcOf(s', u) == Acquiring(m);
        }
      }
    }
  }

  /** A switch that keeps the thread runnable, or ends a thread that is in its own code. */
  lemma SwitchInv(s: Sys, ts': TS)
    requires Inv(s) && Partition(ts') && ts'.sleepers == s.ts.sleepers && ts'.addr == s.ts.addr
    requires forall t :: Runnable(s, t) && PcOf(s, t) != Run ==> Runnable(s.(ts := ts'), t)
    ensures Inv(s.(ts := ts'))
  {
    hide Partition, LockAddr, SemAddr;
    var s' := s.(ts := ts');
    forall x, l | x in s'.ts.sleepers && On(s'.ts.addr, x, LockAddr(l)) && l !in s'.holder
      ensures HasRetry(s', l)
    {
      var u :| Runnable(s, u) && PcOf(s, u) == Acquiring(l);
      assert Runnable(s', u) && PcOf(s', u) == Acquiring(l);
    }
  }

  lemma WaitInv(s: Sys, c: Cv, l: Lock)
    requires Inv(s) && Enabled(s, Wait(c, l))
    ensures Inv(Step(s, Wait(c, l)))
  {
    hide Inv, LockAddr, CvAddr, Block, DoRelease;
    ReleaseInv(s, l);
    WaitBlocks(DoRelease(s, l), c, l);
    BlockInv(DoRelease(s, l), CvAddr(c), Waiting(c, l));
  }

  lemma NotifyInv(s: Sys, c: Cv, l: Lock, e: Event)
    requires Inv(s) && (e == Signal(c, l) || e == Broadcast(c, l)) && Enabled(s, e)
    ensures Inv(Step(s, e))
  {
    hide Inv, Partition, LockAddr, CvAddr, DoRelease, WokenOne, WokenAll;
    InvPartition(s);
    WakePartition(s.ts, CvAddr(c));
    var ts' := if e.Signal? then WokenOne(s.ts, CvAddr(c)) else WokenAll(s.ts, CvAddr(c));
    assert WakesSome(s.ts, ts') by {
      WokenOneWakes(s.ts, CvAddr(c));
      WokenAllWakes(s.ts, CvAddr(c));
    }
    WakeInv(s, ts');
    ReleaseInv(s.(ts := ts'), l);
  }

  lemma InterruptInv(s: Sys, a: Addr)
    requires Inv(s) && Enabled(s, Interrupt(a))
    ensures Inv(Step(s, Interrupt(a)))
  {
    hide Inv, Partition, WokenAll;
    InvPartition(s);
    WokenAllWakes(s.ts, a);
    WakePartition(s.ts, a);
    WakeInv(s, WokenAll(s.ts, a));
  }

  lemma ExorciseInv(s: Sys)
    requires Inv(s) && Enabled(s, Exorcise)
    ensures Inv(Step(s, Exorcise))
  {
    hide Inv, Partition;
    InvPartition(s);
    ExorcisedPartition(s.ts);
    SwitchInv(s, s.ts.(zombies := []));
  }

  lemma YieldOrExitInv(s: Sys, e: Event)
    requires Inv(s) && (e == Yield || e == Exit) && Enabled(s, e)
    ensures Inv(Step(s, e))
  {
    hide Inv, Partition;
    InvPartition(s);
    StashedPartition(s.ts, if e == Yield then Ready else Zombie);
    SwitchInv(s, Step(s, e).ts);
  }

  lemma ForkOrDispatchInv(s: Sys, e: Event)
    requires Inv(s) && (e.Fork? || e == Dispatch) && Enabled(s, e)
    ensures Inv(Step(s, e))
  {
    hide Inv, Partition;
    InvPartition(s);
    if e.Fork? {
      ForkPartition(s.ts, e.t);
    } else {
      DispatchPartition(s.ts);
    }
    SwitchInv(s, Step(s, e).ts);
  }

  /** Every step keeps the invariant. */
  lemma StepInv(s: Sys, e: Event)
    requires Inv(s) && Enabled(s, e)
    ensures Inv(Step(s, e))
  {
    hide Inv, LockAddr, CvAddr, DeviceAddr, WokenOne, WokenAll, Block, DoAcquire, DoRelease, DoP, DoV, Scheduled;
    hide Stashed, Forked;
    match e
    case Acquire(l) => AcquireInv(s, l);
    case Release(l) => ReleaseInv(s, l);
    case Wait(c, l) => WaitInv(s, c, l);
    case Signal(c, l) => NotifyInv(s, c, l, e);
    case Broadcast(c, l) => NotifyInv(s, c, l, e);
    case P(m) => PInv(s, m);
    case V(m) => VInv(s, m);
    case Yield => YieldOrExitInv(s, e);
    case Exit => YieldOrExitInv(s, e);
    case Fork(t) => ForkOrDispatchInv(s, e);
    case DeviceSleep(d) =>
      DeviceBlocks(s, d);
      BlockInv(s, DeviceAddr(d), Run);
    case Resume => ResumeInv(s);
    case Dispatch => ForkOrDispatchInv(s, e);
    case Interrupt(a) => InterruptInv(s, a);
    case Exorcise => ExorciseInv(s);
  }

  lemma InvPartition(s: Sys)
    requires Inv(s)
    ensures Partition(s.ts)
  {
  }

  lemma PInv(s: Sys, m: Sem)
    requires Inv(s) && s.ts.cur.Some?
    requires forall l :: PcOf(s, s.ts.cur.value) != Acquiring(l)
    ensures Inv(DoP(s, m))
  {
    if Count(s, m) == 0 {
      SemBlocks(s, m);
      BlockInv(s, SemAddr(m), Downing(m));
    } else {
      DownInv(s, m);
    }
  }

  lemma DownInv(s: Sys, m: Sem)
    requires Inv(s) && s.ts.cur.Some? && Count(s, m) > 0
    requires forall l :: PcOf(s, s.ts.cur.value) != Acquiring(l)
    ensures Inv(DoP(s, m))
  {
    hide Partition, LockAddr;
    var t, s' := s.ts.cur.value, DoP(s, m);
    CurNotListed(s.ts, t);
    forall x, l | x in s'.ts.sleepers && On(s'.ts.addr, x, LockAddr(l)) && l !in s'.holder
      ensures HasRetry(s', l)
    {
      var u :| Runnable(s, u) && PcOf(s, u) == Acquiring(l);
      assert Runnable(s', u) && PcOf(s', u) == Acquiring(l);
    }
  }

  /** V empties the semaphore's sleep queue, so its positive count is no lost wake-up. */
  lemma VInv(s: Sys, m: Sem)
    requires Inv(s)
    ensures Inv(DoV(s, m))
  {
    hide Partition, LockAddr, WokenAll;
    var ts' := WokenAll(s.ts, SemAddr(m));
    WokenAllWakes(s.ts, SemAddr(m));
    WakePartition(s.ts, SemAddr(m));
    WakeInv(s, ts');
    var s' := DoV(s, m);
    forall x, l | x in s'.ts.sleepers && On(s'.ts.addr, x, LockAddr(l)) && l !in s'.holder
      ensures HasRetry(s', l)
    {
      var u :| Runnable(s.(ts := ts'), u) && PcOf(s.(ts := ts'), u) == Acquiring(l);
      assert Runnable(s', u) && PcOf(s', u) == Acquiring(l);
    }
  }

  lemma SemBlocks(s: Sys, m: Sem)
    requires s.ts.cur.Some? && Count(s, m) == 0
    requires forall l :: PcOf(s, s.ts.cur.value) != Acquiring(l)
    ensures MayBlock(s, SemAddr(m), Downing(m))
  {
  }

  lemma WaitBlocks(s: Sys, c: Cv, l: Lock)
    requires s.ts.cur.Some? && PcOf(s, s.ts.cur.value) == Run
    ensures MayBlock(s, CvAddr(c), Waiting(c, l))
  {
  }

  lemma DeviceBlocks(s: Sys, d: nat)
    requires s.ts.cur.Some? && PcOf(s, s.ts.cur.value) == Run
    ensures MayBlock(s, DeviceAddr(d), Run)
  {
  }

  lemma ResumeInv(s: Sys)
    requires Inv(s) && Enabled(s, Resume)
    ensures Inv(Step(s, Resume))
  {
    hide Inv, LockAddr, DoAcquire, DoP;
    match PcOf(s, s.ts.cur.value)
    case Acquiring(l) => AcquireInv(s, l);
    case Waiting(c, l) => AcquireInv(s, l);
    case Downing(m) => PInv(s, m);
    case Run =>
  }

  // ---------------------------------------------------------------- runs

  /** Boot: one running thread, nothing held, no acquisition outstanding. */
  predicate Booted(s: Sys) {
    && s.ts.cur.Some? && s.ts.ready == [] && s.ts.sleepers == [] && s.ts.zombies == [] && s.ts.num == 1
    && s.holder == map[] && s.owns == {} && s.pc == map[]
  }

  predicate Legal(s: Sys, run: seq<Event>)
    decreases |run|
  {
    run == [] || (Enabled(s, run[0]) && Legal(Step(s, run[0]), run[1..]))
  }

  function After(s: Sys, run: seq<Event>): Sys
    requires Legal(s, run)
    decreases |run|
  {
    if run == [] then s else After(Step(s, run[0]), run[1..])
  }

  lemma BootedInv(s: Sys)
    requires Booted(s)
    ensures Inv(s)
  {
    assert Live(s.ts) == multiset{s.ts.cur.value};
  }

  lemma {:induction false} RunInv(s: Sys, run: seq<Event>)
    requires Inv(s) && Legal(s, run)
    ensures Inv(After(s, run))
    decreases |run|
  {
    hide Inv;
    if run != [] {
      StepInv(s, run[0]);
      RunInv(Step(s, run[0]), run[1..]);
    }
  }

  /** Every interleaving: at most one thread is between acquire and release of a lock. */
  lemma MutualExclusion(s: Sys, run: seq<Event>, t: Tid, u: Tid, l: Lock)
    requires Booted(s) && Legal(s, run)
    requires (t, l) in After(s, run).owns && (u, l) in After(s, run).owns
    ensures t == u && l in After(s, run).holder && After(s, run).holder[l] == t
  {
    BootedInv(s);
    RunInv(s, run);
  }

  /** Every interleaving: a free lock that a thread sleeps on has a runnable thread in its
      retry loop, and nobody sleeps on a semaphore that could be taken. */
  lemma NothingLost(s: Sys, run: seq<Event>, t: Tid)
    requires Booted(s) && Legal(s, run) && t in After(s, run).ts.sleepers
    ensures forall l :: PcOf(After(s, run), t) == Acquiring(l) ==>
      l in After(s, run).holder || HasRetry(After(s, run), l)
    ensures forall m :: On(After(s, run).ts.addr, t, SemAddr(m)) ==> Count(After(s, run), m) == 0
  {
    BootedInv(s);
    RunInv(s, run);
    var z := After(s, run);
    forall l | PcOf(z, t) == Acquiring(l)
      ensures l in z.holder || HasRetry(z, l)
    {
      assert On(z.ts.addr, t, LockAddr(l));
    }
  }

  /** With the CPU idle, every thread asleep in lock_acquire waits for a lock that is held. */
  lemma IdleMeansHeld(s: Sys, run: seq<Event>, t: Tid, l: Lock)
    requires Booted(s) && Legal(s, run)
    requires After(s, run).ts.cur.None? && After(s, run).ts.ready == []
    requires t in After(s, run).ts.sleepers && PcOf(After(s, run), t) == Acquiring(l)
    ensures l in After(s, run).holder
  {
    NothingLost(s, run, t);
  }

  /** Only the owner's own steps end its ownership. */
  lemma OwnershipStable(s: Sys, e: Event, t: Tid, l: Lock)
    requires Inv(s) && Enabled(s, e) && (t, l) in s.owns && s.ts.cur != Some(t)
    ensures (t, l) in Step(s, e).owns
  {
    hide Partition, Sleepers, NoLostWakeup, SemSleepers;
    hide WokenOne, WokenAll, Stashed, Scheduled, Forked, LockAddr, CvAddr, DeviceAddr, SemAddr;
    if e.Signal? || e.Broadcast? {
      WokenOneWakes(s.ts, CvAddr(e.c));
      WokenAllWakes(s.ts, CvAddr(e.c));
    }
  }

  /** cv_wait gives the lock up and is on the sleepers list in the same step, before any other
      thread can run, and has freed the CPU. */
  lemma WaitAtomic(s: Sys, c: Cv, l: Lock, t: Tid)
    requires Inv(s) && Enabled(s, Wait(c, l)) && s.ts.cur == Some(t)
    ensures var s' := Step(s, Wait(c, l));
      && s'.ts.cur.None?
      && t in s'.ts.sleepers && On(s'.ts.addr, t, CvAddr(c))
      && (t, l) !in s'.owns && (l !in s'.holder || s'.holder[l] != t)
  {
    hide LockAddr, CvAddr, WokenOne, Partition, Sleepers, NoLostWakeup, SemSleepers;
    WokenOneWakes(s.ts, LockAddr(l));
  }

  /** A waiter that is asleep when the condition is signalled is not passed over: signal wakes
      one of them, broadcast all of them. */
  lemma SignalReaches(s: Sys, c: Cv, l: Lock, t: Tid)
    requires Inv(s) && t in s.ts.sleepers && On(s.ts.addr, t, CvAddr(c))
    requires Enabled(s, Signal(c, l))
    ensures exists u :: u in s.ts.sleepers && On(s.ts.addr, u, CvAddr(c)) && u in Step(s, Signal(c, l)).ts.ready
    ensures t in Step(s, Broadcast(c, l)).ts.ready
  {
    hide LockAddr, CvAddr, WokenOne, WokenAll, Partition, Sleepers, NoLostWakeup, SemSleepers;
    WokenOneWakes(s.ts, CvAddr(c));
    WokenOneWakes(WokenOne(s.ts, CvAddr(c)), LockAddr(l));
    WokenAllWakes(s.ts, CvAddr(c));
    WokenOneWakes(WokenAll(s.ts, CvAddr(c)), LockAddr(l));
  }

  /** The caller of signal or broadcast never owns the lock afterwards. */
  lemma SignalReleases(s: Sys, c: Cv, l: Lock, t: Tid)
    requires Inv(s) && s.ts.cur == Some(t) && Enabled(s, Signal(c, l))
    ensures (t, l) !in Step(s, Signal(c, l)).owns && (t, l) !in Step(s, Broadcast(c, l)).owns
  {
    hide LockAddr, CvAddr, WokenOne, WokenAll, Partition, Sleepers, NoLostWakeup, SemSleepers;
    WokenOneWakes(s.ts, CvAddr(c));
    WokenAllWakes(s.ts, CvAddr(c));
  }

  /** A blocked thread is back in its own code only with what it asked for. */
  lemma ReturnsWithLock(s: Sys, t: Tid, l: Lock)
    requires s.ts.cur == Some(t) && PcOf(s, t) != Run
    requires PcOf(s, t) == Acquiring(l) || (exists c :: PcOf(s, t) == Waiting(c, l))
    ensures PcOf(Step(s, Resume), t) == Run <==> (t, l) in Step(s, Resume).owns && l !in s.holder
  {
    hide Stashed;
  }

  // ---------------------------------------------------------------- every step, list by list

  /** The current thread holds l. */
  predicate Mine(s: Sys, l: Lock) { l in s.holder && s.ts.cur == Some(s.holder[l]) }

  /** e wakes t, if t is asleep: signal the first waiter and broadcast every one; whatever
      releases a lock the first thread that sleeps on it; V and interrupts everybody. */
  ghost predicate Wakes(s: Sys, e: Event, t: Tid) {
    match e
    case Release(l) => Mine(s, l) && IsFirst(s.ts, t, LockAddr(l))
    case Wait(_, l) => Mine(s, l) && IsFirst(s.ts, t, LockAddr(l))
    case Signal(c, l) => IsFirst(s.ts, t, CvAddr(c)) || (Mine(s, l) && IsFirst(s.ts, t, LockAddr(l)))
    case Broadcast(c, l) => On(s.ts.addr, t, CvAddr(c)) || (Mine(s, l) && IsFirst(s.ts, t, LockAddr(l)))
    case V(m) => On(s.ts.addr, t, SemAddr(m))
    case Interrupt(a) => On(s.ts.addr, t, a)
    case _ => false
  }

  /** Where the current thread goes to sleep in e, if it does: lock_acquire on a held lock, P on a
      count of zero, cv_wait always. */
  function SleepsAt(s: Sys, e: Event): Option<Addr>
    requires Enabled(s, e)
  {
    match e
    case Acquire(l) => if l in s.holder then Some(LockAddr(l)) else None
    case P(m) => if Count(s, m) == 0 then Some(SemAddr(m)) else None
    case Wait(c, _) => Some(CvAddr(c))
    case DeviceSleep(d) => Some(DeviceAddr(d))
    case Resume =>
      (match PcOf(s, s.ts.cur.value)
       case Acquiring(l) => if l in s.holder then Some(LockAddr(l)) else None
       case Waiting(_, l) => if l in s.holder then Some(LockAddr(l)) else None
       case Downing(m) => if Count(s, m) == 0 then Some(SemAddr(m)) else None
       case Run => None)
    case _ => None
  }

  /** Waking the first on a, and then, if the lock is given up, the first on the lock. */
  lemma NotifyLeaves(ts: TS, a: Addr, b: Addr, all: bool, t: Tid)
    requires Partition(ts) && a != b
    ensures var ts1 := if all then WokenAll(ts, a) else WokenOne(ts, a);
            var out := if all then t in ts.sleepers && On(ts.addr, t, a) else IsFirst(ts, t, a);
            && Partition(ts1) && ts1.cur == ts.cur
            && (t in ts1.sleepers <==> t in ts.sleepers && !out)
            && (t in ts1.ready <==> t in ts.ready || out)
            && (t in WokenOne(ts1, b).sleepers <==> t in ts.sleepers && !out && !IsFirst(ts, t, b))
            && (t in WokenOne(ts1, b).ready <==> t in ts.ready || out || IsFirst(ts, t, b))
            && WokenOne(ts1, b).cur == ts.cur
  {
    hide Partition, WokenAll, WokenOne, IsFirst, OneWoken;
    WakePartition(ts, a);
    WokenOneExact(ts, a);
    WokenOneWakes(ts, a);
    WokenAllWakes(ts, a);
    OneLeaves(ts, WokenOne(ts, a), a, t);
    AllLeave(ts, a, t);
    FirstStays(ts, WokenOne(ts, a), a, b, t);
    FirstRemains(ts, a, b, t);
    var ts1 := if all then WokenAll(ts, a) else WokenOne(ts, a);
    WokenOneExact(ts1, b);
    WokenOneWakes(ts1, b);
    OneLeaves(ts1, WokenOne(ts1, b), b, t);
  }

  lemma ReleaseLeaves(s: Sys, l: Lock, t: Tid)
    requires Inv(s) && s.ts.cur.Some?
    ensures var z, out := DoRelease(s, l), Mine(s, l) && IsFirst(s.ts, t, LockAddr(l));
            && (t in z.ts.sleepers <==> t in s.ts.sleepers && !out)
            && (t in z.ts.ready <==> t in s.ts.ready || out) && z.ts.cur == s.ts.cur
  {
    hide Inv, WokenOne, IsFirst, OneWoken, LockAddr;
    InvPartition(s);
    WokenOneExact(s.ts, LockAddr(l));
    WokenOneWakes(s.ts, LockAddr(l));
    OneLeaves(s.ts, WokenOne(s.ts, LockAddr(l)), LockAddr(l), t);
  }

  lemma Distinct(c: Cv, l: Lock)
    ensures CvAddr(c) != LockAddr(l)
  {
  }

  lemma FirstSleeps(ts: TS, t: Tid, a: Addr)
    ensures IsFirst(ts, t, a) ==> t in ts.sleepers
  {
  }

  /** Where t is after e: it sleeps if it slept and is not woken, or if it is the current thread
      and e blocks; it is runnable if it was and is not dispatched, if it was woken, forked or
      yields. */
  ghost predicate Placed(s: Sys, e: Event, z: Sys, t: Tid)
    requires Enabled(s, e)
  {
    && (t in z.ts.sleepers <==>
          (t in s.ts.sleepers && !Wakes(s, e, t)) || (SleepsAt(s, e).Some? && s.ts.cur == Some(t)))
    && (t in z.ts.ready <==>
          || (t in s.ts.ready && !(e == Dispatch && t == s.ts.ready[0]))
          || (t in s.ts.sleepers && Wakes(s, e, t))
          || e == Fork(t) || (e == Yield && s.ts.cur == Some(t)))
    && z.ts.cur == (if e == Dispatch then Some(s.ts.ready[0])
                    else if SleepsAt(s, e).Some? || e == Yield || e == Exit then None
                    else s.ts.cur)
    && (SleepsAt(s, e).Some? ==> On(z.ts.addr, s.ts.cur.value, SleepsAt(s, e).value))
  }

  /** What blocking does to the lists. */
  lemma BlockLists(s: Sys, a: Addr, pc: Pc, t: Tid)
    requires s.ts.cur.Some?
    ensures var z := Block(s, a, pc);
            && (t in z.ts.sleepers <==> t in s.ts.sleepers || s.ts.cur == Some(t))
            && z.ts.ready == s.ts.ready && z.ts.cur == None && On(z.ts.addr, s.ts.cur.value, a)
  {
  }

  lemma BlockingPlaced(s: Sys, e: Event, t: Tid)
    requires Enabled(s, e) && (e.Acquire? || e.P? || e.DeviceSleep? || e.Resume?)
    ensures Placed(s, e, Step(s, e), t)
  {
    hide Block, LockAddr, CvAddr, SemAddr, DeviceAddr;
    if SleepsAt(s, e).Some? {
      var pc := PcOf(s, s.ts.cur.value);
      match e
      case Acquire(l) => BlockLists(s, LockAddr(l), Acquiring(l), t);
      case P(m) => BlockLists(s, SemAddr(m), Downing(m), t);
      case DeviceSleep(d) => BlockLists(s, DeviceAddr(d), Run, t);
      case Resume =>
        if pc.Downing? {
          BlockLists(s, SemAddr(pc.m), pc, t);
        } else {
          var l := if pc.Acquiring? then pc.l else pc.lk;
          BlockLists(s, LockAddr(l), Acquiring(l), t);
        }
    }
  }

  lemma ReleasingPlaced(s: Sys, e: Event, t: Tid)
    requires Inv(s) && Enabled(s, e) && (e.Release? || e.Wait?)
    ensures Placed(s, e, Step(s, e), t)
  {
    hide Inv, Block, DoRelease, LockAddr, CvAddr, IsFirst;
    ReleaseLeaves(s, e.l, t);
    FirstSleeps(s.ts, t, LockAddr(e.l));
    if e.Wait? {
      BlockLists(DoRelease(s, e.l), CvAddr(e.c), Waiting(e.c, e.l), t);
    }
  }

  lemma NotifyPlaced(s: Sys, e: Event, t: Tid)
    requires Inv(s) && Enabled(s, e) && (e.Signal? || e.Broadcast?)
    ensures Placed(s, e, Step(s, e), t)
  {
    hide Inv, WokenOne, WokenAll, LockAddr, CvAddr, IsFirst;
    InvPartition(s);
    Distinct(e.c, e.l);
    NotifyLeaves(s.ts, CvAddr(e.c), LockAddr(e.l), e.Broadcast?, t);
    FirstSleeps(s.ts, t, LockAddr(e.l));
    FirstSleeps(s.ts, t, CvAddr(e.c));
  }

  lemma WakingPlaced(s: Sys, e: Event, t: Tid)
    requires Enabled(s, e) && (e.V? || e.Interrupt?)
    ensures Placed(s, e, Step(s, e), t)
  {
    hide WokenAll, SemAddr;
    var a := if e.V? then SemAddr(e.m) else e.a;
    AllLeave(s.ts, a, t);
    WokenAllWakes(s.ts, a);
  }

  lemma StashedLists(ts: TS, next: NextState, t: Tid)
    requires ts.cur.Some? && next != Sleep
    ensures var z := Stashed(ts, next);
            && z.cur == None && z.sleepers == ts.sleepers
            && (t in z.ready <==> t in ts.ready || (next == Ready && ts.cur == Some(t)))
  {
  }

  lemma ForkedLists(ts: TS, u: Tid, t: Tid)
    ensures var z := Forked(ts, u);
            z.cur == ts.cur && z.sleepers == ts.sleepers && (t in z.ready <==> t in ts.ready || t == u)
  {
  }

  lemma DispatchedLists(ts: TS, t: Tid)
    requires Partition(ts) && ts.ready != []
    ensures var z := Scheduled(ts, []);
            && z.cur == Some(ts.ready[0]) && z.sleepers == ts.sleepers
            && (t in z.ready <==> t in ts.ready && t != ts.ready[0])
  {
    hide Partition;
    HeadOnce(ts);
  }

  lemma SwitchPlaced(s: Sys, e: Event, t: Tid)
    requires Inv(s) && Enabled(s, e) && (e.Yield? || e.Exit? || e.Fork? || e.Dispatch? || e.Exorcise?)
    ensures Placed(s, e, Step(s, e), t)
  {
    hide Inv, Partition, Block, DoAcquire, DoRelease, DoP, DoV, WokenOne, WokenAll, IsFirst;
    hide Stashed, Scheduled, Forked, LockAddr, CvAddr, SemAddr, DeviceAddr;
    InvPartition(s);
    match e
    case Yield => StashedLists(s.ts, Ready, t);
    case Exit => StashedLists(s.ts, Zombie, t);
    case Fork(u) => ForkedLists(s.ts, u, t);
    case Dispatch => DispatchedLists(s.ts, t);
    case Exorcise =>
  }

  /** Every step puts every thread where it belongs. */
  lemma StepPlaced(s: Sys, e: Event, t: Tid)
    requires Inv(s) && Enabled(s, e)
    ensures Placed(s, e, Step(s, e), t)
  {
    hide Inv, Placed, Step;
    match e
    case Acquire(_) => BlockingPlaced(s, e, t);
    case P(_) => BlockingPlaced(s, e, t);
    case DeviceSleep(_) => BlockingPlaced(s, e, t);
    case Resume => BlockingPlaced(s, e, t);
    case Release(_) => ReleasingPlaced(s, e, t);
    case Wait(_, _) => ReleasingPlaced(s, e, t);
    case Signal(_, _) => NotifyPlaced(s, e, t);
    case Broadcast(_, _) => NotifyPlaced(s, e, t);
    case V(_) => WakingPlaced(s, e, t);
    case Interrupt(_) => WakingPlaced(s, e, t);
    case _ => SwitchPlaced(s, e, t);
  }

  lemma HeadOnce(ts: TS)
    requires Partition(ts) && ts.ready != []
    ensures ts.ready[0] !in ts.ready[1..] && forall t :: t in ts.ready <==> t == ts.ready[0] || t in ts.ready[1..]
  {
    var q := ts.ready;
    assert q == [q[0]] + q[1..];
    assert (Live(ts) + multiset(ts.zombies))[q[0]] <= 1;
    assert multiset(q)[q[0]] == 1 + multiset(q[1..])[q[0]];
  }

  /** The acquisitions and releases of l in e. */
  predicate Takes(s: Sys, e: Event, l: Lock)
    requires Enabled(s, e)
  {
    && l !in s.holder
    && (|| e == Acquire(l)
        || (e == Resume && var pc := PcOf(s, s.ts.cur.value); pc == Acquiring(l) || (pc.Waiting? && pc.lk == l)))
  }

  predicate Gives(s: Sys, e: Event, l: Lock) {
    && Mine(s, l)
    && (e == Release(l) || (e.Wait? && e.l == l) || (e.Signal? && e.l == l) || (e.Broadcast? && e.l == l))
  }

  /** Whose a lock is after a step. */
  lemma HolderExact(s: Sys, e: Event, l: Lock)
    requires Enabled(s, e)
    ensures l in Step(s, e).holder <==> (l in s.holder && !Gives(s, e, l)) || Takes(s, e, l)
    ensures l in Step(s, e).holder ==>
            Some(Step(s, e).holder[l]) == if Takes(s, e, l) then s.ts.cur else Some(s.holder[l])
  {
    hide WokenOne, WokenAll, Stashed, Scheduled, Forked, LockAddr, CvAddr, DeviceAddr, SemAddr;
    if e.Signal? || e.Broadcast? {
      WokenOneWakes(s.ts, CvAddr(e.c));
      WokenAllWakes(s.ts, CvAddr(e.c));
    }
  }

  // ---------------------------------------------------------------- threads that exited

  lemma BlockLive(s: Sys, a: Addr, pc: Pc, t: Tid)
    requires s.ts.cur.Some? && t !in Live(s.ts)
    ensures t !in Live(Block(s, a, pc).ts)
  {
    hide Stashed;
    var ts := s.ts.(addr := s.ts.addr[s.ts.cur.value := a]);
    assert Live(ts) == Live(s.ts);
    StashedLive(ts, Sleep);
  }

  lemma ReleaseLive(s: Sys, l: Lock)
    requires s.ts.cur.Some?
    ensures Live(DoRelease(s, l).ts) == Live(s.ts) && DoRelease(s, l).ts.cur == s.ts.cur
  {
    hide WokenOne, LockAddr, Live;
    WokenOneLive(s.ts, LockAddr(l));
    WokenOneWakes(s.ts, LockAddr(l));
  }

  lemma NotifyLive(s: Sys, c: Cv, l: Lock, all: bool)
    requires s.ts.cur.Some?
    ensures var s' := s.(ts := if all then WokenAll(s.ts, CvAddr(c)) else WokenOne(s.ts, CvAddr(c)));
            s'.ts.cur.Some? && Live(DoRelease(s', l).ts) == Live(s.ts)
  {
    hide WokenOne, WokenAll, CvAddr, Live, DoRelease;
    WokenOneLive(s.ts, CvAddr(c));
    WokenAllLive(s.ts, CvAddr(c));
    WokenOneWakes(s.ts, CvAddr(c));
    WokenAllWakes(s.ts, CvAddr(c));
    ReleaseLive(s.(ts := if all then WokenAll(s.ts, CvAddr(c)) else WokenOne(s.ts, CvAddr(c))), l);
  }

  lemma AcquireLive(s: Sys, l: Lock, t: Tid)
    requires s.ts.cur.Some? && t !in Live(s.ts)
    ensures t !in Live(DoAcquire(s, l).ts)
  {
    hide Live, Block, LockAddr;
    BlockLive(s, LockAddr(l), Acquiring(l), t);
  }

  lemma PLive(s: Sys, m: Sem, t: Tid)
    requires s.ts.cur.Some? && t !in Live(s.ts)
    ensures t !in Live(DoP(s, m).ts)
  {
    hide Live, Block, SemAddr;
    BlockLive(s, SemAddr(m), Downing(m), t);
  }

  lemma QuietLive(ts: TS, z: seq<Tid>, n: int)
    ensures Live(ts.(zombies := z)) == Live(ts) == Live(ts.(num := n))
  {
  }

  lemma ResumeLive(s: Sys, t: Tid)
    requires Enabled(s, Resume) && t !in Live(s.ts)
    ensures t !in Live(Step(s, Resume).ts)
  {
    hide Live, DoAcquire, DoP;
    match PcOf(s, s.ts.cur.value)
    case Acquiring(l) => AcquireLive(s, l, t);
    case Waiting(c, l) => AcquireLive(s, l, t);
    case Downing(m) => PLive(s, m, t);
    case Run =>
  }

  /** Only fork adds a thread. */
  lemma LiveStep(s: Sys, e: Event, t: Tid)
    requires Enabled(s, e) && t !in Live(s.ts) && e != Fork(t)
    ensures t !in Live(Step(s, e).ts)
  {
    hide LockAddr, CvAddr, DeviceAddr, SemAddr, WokenOne, WokenAll, Stashed, Scheduled, Live, Block, DoAcquire;
    hide DoRelease, DoP, Forked;
    match e
    case Acquire(l) => AcquireLive(s, l, t);
    case Release(l) => ReleaseLive(s, l);
    case Wait(c, l) =>
      ReleaseLive(s, l);
      BlockLive(DoRelease(s, l), CvAddr(c), Waiting(c, l), t);
    case Signal(c, l) => NotifyLive(s, c, l, false);
    case Broadcast(c, l) => NotifyLive(s, c, l, true);
    case P(m) => PLive(s, m, t);
    case V(m) => WokenAllLive(s.ts, SemAddr(m));
    case Yield => StashedLive(s.ts, Ready);
    case Exit =>
      StashedLive(s.ts, Zombie);
      QuietLive(Stashed(s.ts, Zombie), [], s.ts.num - 1);
    case Fork(u) => ForkedLive(s.ts, u);
    case DeviceSleep(d) => BlockLive(s, DeviceAddr(d), Run, t);
    case Resume =>
      ResumeLive(s, t);
    case Dispatch => ScheduledLive(s.ts, []);
    case Interrupt(a) => WokenAllLive(s.ts, a);
    case Exorcise => QuietLive(s.ts, [], 0);
  }

  lemma ForkedLive(ts: TS, t: Tid)
    ensures Live(Forked(ts, t)) == Live(ts) + multiset{t}
  {
  }

  lemma {:induction false} GoneRun(s: Sys, run: seq<Event>, t: Tid)
    requires Legal(s, run) && t !in Live(s.ts) && Fork(t) !in run
    ensures t !in Live(After(s, run).ts)
    decreases |run|
  {
    hide Step, Live, Enabled;
    if run != [] {
      LiveStep(s, run[0], t);
      GoneRun(Step(s, run[0]), run[1..], t);
    }
  }

  /** Every interleaving: a thread that has exited never runs, becomes runnable or sleeps again,
      unless a new thread is forked in its place. */
  lemma ExitedForGood(s: Sys, run: seq<Event>, t: Tid, rest: seq<Event>)
    requires Booted(s) && Legal(s, run) && After(s, run).ts.cur == Some(t) && Enabled(After(s, run), Exit)
    requires Legal(Step(After(s, run), Exit), rest) && Fork(t) !in rest
    ensures var z := After(Step(After(s, run), Exit), rest);
      z.ts.cur != Some(t) && t !in z.ts.ready && t !in z.ts.sleepers
  {
    hide Inv, Stashed, Partition;
    BootedInv(s);
    RunInv(s, run);
    InvPartition(After(s, run));
    ExitGone(After(s, run).ts, t);
    GoneRun(Step(After(s, run), Exit), rest, t);
  }

  lemma ExitGone(ts: TS, t: Tid)
    requires Partition(ts) && ts.cur == Some(t)
    ensures t !in Live(Stashed(ts, Zombie).(num := ts.num - 1))
  {
    CurNotListed(ts, t);
  }

  // ---------------------------------------------------------------- runs as a relation

  /** Some run leads from s to s'. */
  ghost predicate Reaches(s: Sys, s': Sys) {
    exists run :: Legal(s, run) && After(s, run) == s'
  }

  lemma OneStep(s: Sys, e: Event)
    requires Enabled(s, e)
    ensures Legal(s, [e]) && After(s, [e]) == Step(s, e) && Reaches(s, Step(s, e))
  {
    hide Step, Enabled;
    assert [e][1..] == [];
    assert Legal(Step(s, e), []);
  }

  lemma {:induction false} AfterConcat(s: Sys, r: seq<Event>, r': seq<Event>)
    requires Legal(s, r) && Legal(After(s, r), r')
    ensures Legal(s, r + r') && After(s, r + r') == After(After(s, r), r')
    decreases |r|
  {
    hide Step, Enabled;
    if r == [] {
      assert r + r' == r';
    } else {
      assert (r + r')[0] == r[0] && (r + r')[1..] == r[1..] + r';
      AfterConcat(Step(s, r[0]), r[1..], r');
    }
  }

  /** Runs compose. */
  lemma ReachesTrans(s: Sys, s1: Sys, s2: Sys)
    requires Reaches(s, s1) && Reaches(s1, s2)
    ensures Reaches(s, s2)
  {
    hide Legal, After;
    var r :| Legal(s, r) && After(s, r) == s1;
    var r' :| Legal(s1, r') && After(s1, r') == s2;
    AfterConcat(s, r, r');
  }

  /** What a run reaches from boot satisfies the invariant. */
  lemma ReachedInv(s: Sys, s': Sys)
    requires Booted(s) && Reaches(s, s')
    ensures Inv(s')
  {
    hide Inv;
    var r :| Legal(s, r) && After(s, r) == s';
    BootedInv(s);
    RunInv(s, r);
  }

  /** Waking while the CPU idles, and then picking the head of the run queue, is a run. */
  lemma {:induction false} ScheduledRun(s: Sys, irqs: seq<Addr>)
    requires s.ts.cur.None? && Scheduled(s.ts, irqs).cur.Some?
    ensures Reaches(s, s.(ts := Scheduled(s.ts, irqs)))
    decreases |irqs|
  {
    hide WokenAll;
    if s.ts.ready != [] {
      OneStep(s, Dispatch);
      assert Scheduled(s.ts, []) == Scheduled(s.ts, irqs);
    } else {
      var s1 := s.(ts := WokenAll(s.ts, irqs[0]));
      OneStep(s, Interrupt(irqs[0]));
      WokenAllWakes(s.ts, irqs[0]);
      ScheduledRun(s1, irqs[1..]);
      assert s1.(ts := Scheduled(s1.ts, irqs[1..])) == s.(ts := Scheduled(s.ts, irqs));
      ReachesTrans(s, s1, s.(ts := Scheduled(s.ts, irqs)));
    }
  }

  // ---------------------------------------------------------------- semaphore accounting

  /** What e adds to the count of m: V adds one, a P that returns takes one. */
  function Change(s: Sys, e: Event, m: Sem): int
    requires Enabled(s, e)
  {
    if e == V(m) then 1
    else if e == P(m) && Count(s, m) > 0 then -1
    else if e == Resume && PcOf(s, s.ts.cur.value) == Downing(m) && Count(s, m) > 0 then -1
    else 0
  }

  function Changes(s: Sys, run: seq<Event>, m: Sem): int
    requires Legal(s, run)
    decreases |run|
  {
    if run == [] then 0 else Change(s, run[0], m) + Changes(Step(s, run[0]), run[1..], m)
  }

  lemma StepCount(s: Sys, e: Event, m: Sem)
    requires Enabled(s, e)
    ensures Count(Step(s, e), m) == Count(s, m) + Change(s, e, m)
  {
    hide WokenOne, WokenAll, Stashed, Scheduled, Forked, LockAddr, CvAddr, DeviceAddr, SemAddr;
  }

  /** Conservation: over any run the count is the initial one plus the Vs minus the Ps that
      returned, so the Ps that returned never outnumber the initial count plus the Vs. */
  lemma {:induction false} SemaphoreConserved(s: Sys, run: seq<Event>, m: Sem)
    requires Legal(s, run)
    ensures Count(After(s, run), m) == Count(s, m) + Changes(s, run, m)
    decreases |run|
  {
    hide Step, Change;
    if run != [] {
      StepCount(s, run[0], m);
      SemaphoreConserved(Step(s, run[0]), run[1..], m);
    }
  }
}
