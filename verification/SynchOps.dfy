/** kern/thread/synch.c as code over the thread lists: each operation does to the holder fields,
    the semaphore counts and the lists what the step of module Synch says. A blocking operation is
    given by one pass of its loop, up to the moment another thread runs. */
module SynchOps {
  import opened ThreadModel
  import opened PtrArray
  import opened Synch
  import T = Threads

  /** The state a sleeping thread leaves, after the scheduler has picked the next thread and that
      one may have disposed of the zombies. */
  ghost predicate Switched(s: Sys, s': Sys, irqs: seq<Addr>) {
    var ts := Scheduled(s.ts, irqs);
    s' == s.(ts := ts) || s' == s.(ts := ts.(zombies := []))
  }

  /** The current thread is in its own code about to call lock_acquire, or in its loop, or on the
      way out of cv_wait. */
  predicate AtAcquire(s: Sys, l: Lock)
    requires s.ts.cur.Some?
  {
    var pc := PcOf(s, s.ts.cur.value);
    pc == Run || pc == Acquiring(l) || (pc.Waiting? && pc.lk == l)
  }

  predicate AtP(s: Sys, m: Sem)
    requires s.ts.cur.Some?
  {
    PcOf(s, s.ts.cur.value) == Run || PcOf(s, s.ts.cur.value) == Downing(m)
  }

  /** A pass of lock_acquire is a step, whichever pass it is. */
  lemma AcquireReaches(s: Sys, l: Lock)
    requires s.ts.cur.Some? && AtAcquire(s, l)
    ensures Reaches(s, DoAcquire(s, l))
  {
    hide DoAcquire;
    OneStep(s, if PcOf(s, s.ts.cur.value) == Run then Acquire(l) else Resume);
  }

  lemma PReaches(s: Sys, m: Sem)
    requires s.ts.cur.Some? && AtP(s, m)
    ensures Reaches(s, DoP(s, m))
  {
    hide DoP;
    OneStep(s, if PcOf(s, s.ts.cur.value) == Run then P(m) else Resume);
  }

  /** So is a switch to another thread, with everything the idle CPU lets in. */
  lemma SwitchedRun(s: Sys, s1: Sys, s2: Sys, irqs: seq<Addr>)
    requires Reaches(s, s1) && s1.ts.cur.None? && Scheduled(s1.ts, irqs).cur.Some? && Switched(s1, s2, irqs)
    ensures Reaches(s, s2)
  {
    hide Reaches, Scheduled;
    var s' := s1.(ts := Scheduled(s1.ts, irqs));
    ScheduledRun(s1, irqs);
    ReachesTrans(s, s1, s');
    OneStep(s', Exorcise);
    if s2 != s' {
      ReachesTrans(s, s', s2);
    }
  }

  /** Who still sleeps after signal and broadcast. */
  lemma NotifyPlaces(s: Sys, e: Event)
    requires Inv(s) && Enabled(s, e) && (e.Signal? || e.Broadcast?)
    ensures forall t :: t in Step(s, e).ts.sleepers <==> t in s.ts.sleepers && !Wakes(s, e, t)
    ensures forall t :: t in s.ts.sleepers && Wakes(s, e, t) ==> t in Step(s, e).ts.ready
    ensures forall t, a :: IsFirst(s.ts, t, a) ==> t in s.ts.sleepers
  {
    hide Inv, Step, Wakes, IsFirst;
    forall t
      ensures t in Step(s, e).ts.sleepers <==> t in s.ts.sleepers && !Wakes(s, e, t)
      ensures t in s.ts.sleepers && Wakes(s, e, t) ==> t in Step(s, e).ts.ready
    {
      StepPlaced(s, e, t);
    }
    forall t, a
      ensures IsFirst(s.ts, t, a) ==> t in s.ts.sleepers
    {
      FirstSleeps(s.ts, t, a);
    }
  }

  class Objects {
    const thr: T.Threads
    var holder: map<Lock, Tid>        // lock->holder, absent when NULL
    var count: map<Sem, nat>          // sem->count
    ghost var pc: map<Tid, Pc>
    ghost var owns: set<(Tid, Lock)>

    ghost predicate Valid()
      reads this, thr, thr.runqueue, thr.sleepers, thr.zombies
    {
      thr.Valid()
    }

    ghost function View(): Sys
      requires Valid()
      reads this, thr, thr.runqueue, thr.sleepers, thr.zombies, thr.runqueue.data, thr.sleepers.v, thr.zombies.v
    {
      Sys(thr.View(), holder, pc, owns, count)
    }

    /** Boot: one thread, running, with nothing held and the given semaphore counts. */
    constructor (me: Tid, counts: map<Sem, nat>)
      ensures Valid() && Booted(View()) && Inv(View()) && count == counts && thr.curthread == Some(me)
    {
      thr := new T.Threads(me);
      holder, count, pc, owns := map[], counts, map[], {};
      new;
      BootedInv(View());
    }

    /** V */
    method Up(m: Sem)
      requires Valid()
      modifies this`count, thr.runqueue, thr.runqueue.data, thr.sleepers`num, thr.sleepers.v
      ensures Valid() && View() == DoV(old(View()), m) && (old(Inv(View())) ==> Inv(View()))
      ensures Enabled(old(View()), V(m)) ==> Reaches(old(View()), View())
      ensures Count(View(), m) == old(Count(View(), m)) + 1
      ensures forall t :: t in View().ts.sleepers <==>
                t in old(View()).ts.sleepers && !On(old(View()).ts.addr, t, SemAddr(m))
      ensures thr.runqueue.data == old(thr.runqueue.data) || fresh(thr.runqueue.data)
    {
      hide WokenAll, SemAddr, Inv, Reaches, AllWoken;
      if Inv(View()) {
        VInv(View(), m);
      }
      if Enabled(View(), V(m)) {
        OneStep(View(), V(m));
      }
      count := count[m := (if m in count then count[m] else 0) + 1];
      thr.Wakeup(SemAddr(m));
      forall t
        ensures t in View().ts.sleepers <==> t in old(View()).ts.sleepers && !On(old(View()).ts.addr, t, SemAddr(m))
      {
        AllLeave(old(View()).ts, SemAddr(m), t);
      }
    }

    /** lock_release */
    method Release(l: Lock)
      requires Valid() && thr.curthread.Some?
      modifies this`holder, this`owns, thr.runqueue, thr.runqueue.data, thr.sleepers`num, thr.sleepers.v
      ensures Valid() && View() == DoRelease(old(View()), l) && (old(Inv(View())) ==> Inv(View()))
      ensures Enabled(old(View()), Event.Release(l)) ==> Reaches(old(View()), View())
      ensures holder == if Mine(old(View()), l) then old(holder) - {l} else old(holder)
      // at most the first thread that sleeps on the lock is woken
      ensures old(Inv(View())) ==> forall t :: t in View().ts.sleepers <==>
                t in old(View()).ts.sleepers && !(Mine(old(View()), l) && IsFirst(old(View()).ts, t, LockAddr(l)))
      ensures thr.runqueue.data == old(thr.runqueue.data) || fresh(thr.runqueue.data)
    {
      hide WokenOne, LockAddr, Inv, Reaches, OneWoken, IsFirst;
      if Inv(View()) {
        ReleaseInv(View(), l);
        forall t
          ensures t in DoRelease(View(), l).ts.sleepers <==>
                  t in View().ts.sleepers && !(Mine(View(), l) && IsFirst(View().ts, t, LockAddr(l)))
        {
          ReleaseLeaves(View(), l, t);
        }
      }
      if Enabled(View(), Event.Release(l)) {
        OneStep(View(), Event.Release(l));
      }
      var me := thr.curthread.value;
      if l in holder && holder[l] == me {
        holder := holder - {l};
        owns := owns - {(me, l)};
        thr.WakeupOne(LockAddr(l));
      }
    }

    /** cv_signal */
    method Signal(c: Cv, l: Lock)
      requires Valid() && Enabled(View(), Event.Signal(c, l))
      modifies this`holder, this`owns, thr.runqueue, thr.runqueue.data, thr.sleepers`num, thr.sleepers.v
      ensures Valid() && View() == Step(old(View()), Event.Signal(c, l)) && (old(Inv(View())) ==> Inv(View()))
      ensures Reaches(old(View()), View())
      ensures holder == if Mine(old(View()), l) then old(holder) - {l} else old(holder)
      // of the sleepers on the condition only the first leaves, and of those on the lock at most the first
      ensures old(Inv(View())) ==> forall t :: t in View().ts.sleepers <==>
                && t in old(View()).ts.sleepers && !IsFirst(old(View()).ts, t, CvAddr(c))
                && !(Mine(old(View()), l) && IsFirst(old(View()).ts, t, LockAddr(l)))
      ensures old(Inv(View())) ==> forall t :: IsFirst(old(View()).ts, t, CvAddr(c)) ==> t in View().ts.ready
    {
      hide WokenOne, CvAddr, LockAddr, DoRelease, Inv, Reaches, OneWoken, IsFirst;
      if Inv(View()) {
        StepInv(View(), Event.Signal(c, l));
        NotifyPlaces(View(), Event.Signal(c, l));
      }
      OneStep(View(), Event.Signal(c, l));
      thr.WakeupOne(CvAddr(c));
      Release(l);
    }

    /** cv_broadcast */
    method Broadcast(c: Cv, l: Lock)
      requires Valid() && Enabled(View(), Event.Broadcast(c, l))
      modifies this`holder, this`owns, thr.runqueue, thr.runqueue.data, thr.sleepers`num, thr.sleepers.v
      ensures Valid() && View() == Step(old(View()), Event.Broadcast(c, l)) && (old(Inv(View())) ==> Inv(View()))
      ensures Reaches(old(View()), View())
      ensures holder == if Mine(old(View()), l) then old(holder) - {l} else old(holder)
      // all sleepers on the condition leave, and of those on the lock at most the first
      ensures old(Inv(View())) ==> forall t :: t in View().ts.sleepers <==>
                && t in old(View()).ts.sleepers && !On(old(View()).ts.addr, t, CvAddr(c))
                && !(Mine(old(View()), l) && IsFirst(old(View()).ts, t, LockAddr(l)))
    {
      hide WokenAll, CvAddr, LockAddr, DoRelease, Inv, Reaches, AllWoken, IsFirst;
      if Inv(View()) {
        StepInv(View(), Event.Broadcast(c, l));
        NotifyPlaces(View(), Event.Broadcast(c, l));
      }
      OneStep(View(), Event.Broadcast(c, l));
      thr.Wakeup(CvAddr(c));
      Release(l);
    }

    /** thread_sleep(addr) in one of the loops: the thread will go on at pc. */
    method Block(a: Addr, ghost at: Pc, irqs: seq<Addr>)
      requires Valid() && Partition(thr.View()) && thr.curthread.Some?
      requires Scheduled(Synch.Block(View(), a, at).ts, irqs).cur.Some?
      modifies this`pc, thr, thr.runqueue, thr.runqueue.data, thr.sleepers, thr.sleepers.v, thr.zombies, thr.zombies.v
      ensures Valid() && Switched(Synch.Block(old(View()), a, at), View(), irqs)
      ensures Partition(thr.View()) && thr.curthread.Some?
    {
      hide Scheduled, Partition;
      pc := pc[thr.curthread.value := at];
      thr.Sleep(a, irqs);
    }

    /** One pass of the loop of lock_acquire, and what follows it. */
    method AcquirePass(l: Lock, irqs: seq<Addr>) returns (got: bool)
      requires Valid() && Inv(View()) && thr.curthread.Some?
      requires forall m :: PcOf(View(), thr.curthread.value) == Acquiring(m) ==> m == l
      requires l in holder ==> Scheduled(Synch.Block(View(), LockAddr(l), Acquiring(l)).ts, irqs).cur.Some?
      modifies this, thr, thr.runqueue, thr.runqueue.data, thr.sleepers, thr.sleepers.v, thr.zombies, thr.zombies.v
      ensures Valid() && Inv(View()) && (got <==> l !in old(holder))
      ensures if got then View() == DoAcquire(old(View()), l) else Switched(DoAcquire(old(View()), l), View(), irqs)
      ensures holder == if got then old(holder)[l := old(thr.curthread).value] else old(holder)
      ensures AtAcquire(old(View()), l) ==> Reaches(old(View()), View())
    {
      hide Scheduled, Partition, LockAddr, Switched, Inv, Reaches;
      ghost var s := View();
      AcquireInv(s, l);
      InvPartition(s);
      if l in holder {
        Block(LockAddr(l), Acquiring(l), irqs);
        SwitchedInv(DoAcquire(s, l), View(), irqs);
        if AtAcquire(s, l) {
          AcquireReaches(s, l);
          SwitchedRun(s, DoAcquire(s, l), View(), irqs);
        }
        return false;
      }
      if AtAcquire(s, l) {
        AcquireReaches(s, l);
      }
      var me := thr.curthread.value;
      holder := holder[l := me];
      pc, owns := pc[me := Run], owns + {(me, l)};
      return true;
    }

    /** One pass of the loop of P, and what follows it. */
    method DownPass(m: Sem, irqs: seq<Addr>) returns (got: bool)
      requires Valid() && Inv(View()) && thr.curthread.Some?
      requires forall l :: PcOf(View(), thr.curthread.value) != Acquiring(l)
      requires Count(View(), m) == 0 ==> Scheduled(Synch.Block(View(), SemAddr(m), Downing(m)).ts, irqs).cur.Some?
      modifies this, thr, thr.runqueue, thr.runqueue.data, thr.sleepers, thr.sleepers.v, thr.zombies, thr.zombies.v
      ensures Valid() && Inv(View()) && (got <==> old(Count(View(), m)) > 0)
      ensures if got then View() == DoP(old(View()), m) else Switched(DoP(old(View()), m), View(), irqs)
      ensures Count(View(), m) == old(Count(View(), m)) - (if got then 1 else 0)
      ensures forall k :: k != m ==> Count(View(), k) == old(Count(View(), k))
      ensures AtP(old(View()), m) ==> Reaches(old(View()), View())
    {
      hide Scheduled, Partition, SemAddr, Switched, Inv, Reaches;
      ghost var s := View();
      PInv(s, m);
      InvPartition(s);
      if m !in count || count[m] == 0 {
        Block(SemAddr(m), Downing(m), irqs);
        SwitchedInv(DoP(s, m), View(), irqs);
        if AtP(s, m) {
          PReaches(s, m);
          SwitchedRun(s, DoP(s, m), View(), irqs);
        }
        return false;
      }
      if AtP(s, m) {
        PReaches(s, m);
      }
      count := count[m := count[m] - 1];
      pc := pc[thr.curthread.value := Run];
      return true;
    }

    /** cv_wait up to the moment another thread runs; what follows is AcquirePass. */
    method WaitPass(c: Cv, l: Lock, irqs: seq<Addr>)
      requires Valid() && Inv(View()) && Enabled(View(), Wait(c, l))
      requires Scheduled(Step(View(), Wait(c, l)).ts, irqs).cur.Some?
      modifies this, thr, thr.runqueue, thr.runqueue.data, thr.sleepers, thr.sleepers.v, thr.zombies, thr.zombies.v
      ensures Valid() && Inv(View()) && Switched(Step(old(View()), Wait(c, l)), View(), irqs)
      ensures Reaches(old(View()), View())
    {
      hide Scheduled, Partition, CvAddr, Switched, DoRelease, Inv, Reaches;
      ghost var s := View();
      StepInv(s, Wait(c, l));
      ReleaseInv(s, l);
      InvPartition(DoRelease(s, l));
      Release(l);
      Block(CvAddr(c), Waiting(c, l), irqs);
      SwitchedInv(Step(s, Wait(c, l)), View(), irqs);
      OneStep(s, Wait(c, l));
      SwitchedRun(s, Step(s, Wait(c, l)), View(), irqs);
    }
  }

  /** Whatever interrupts wake while the CPU idles, the state another thread finds is one in which
      no wake-up is lost. */
  lemma {:induction false} ScheduledInv(s: Sys, irqs: seq<Addr>)
    requires Inv(s) && s.ts.cur.None?
    ensures Inv(s.(ts := Scheduled(s.ts, irqs)))
    decreases |irqs|
  {
    hide Inv, Partition, WokenAll;
    InvPartition(s);
    if s.ts.ready != [] {
      DispatchPartition(s.ts);
      SwitchInv(s, Scheduled(s.ts, irqs));
    } else if irqs != [] {
      WokenAllWakes(s.ts, irqs[0]);
      WakePartition(s.ts, irqs[0]);
      WakeInv(s, WokenAll(s.ts, irqs[0]));
      ScheduledInv(s.(ts := WokenAll(s.ts, irqs[0])), irqs[1..]);
      assert s.(ts := WokenAll(s.ts, irqs[0])).(ts := Scheduled(s.ts, irqs)) == s.(ts := Scheduled(s.ts, irqs));
    }
  }

  lemma SwitchedInv(s: Sys, s': Sys, irqs: seq<Addr>)
    requires Inv(s) && s.ts.cur.None? && Switched(s, s', irqs) && Partition(s'.ts)
    ensures Inv(s')
  {
    hide Partition, Scheduled;
    ScheduledInv(s, irqs);
    var s1 := s.(ts := Scheduled(s.ts, irqs));
    SwitchInv(s1, s'.ts);
  }
}
