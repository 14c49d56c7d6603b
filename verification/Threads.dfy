/** kern/thread/thread.c and kern/thread/scheduler.c: switching, sleeping, waking and exiting
    on the ring-buffer run queue and the growable sleepers and zombies arrays. Memory for
    growing them is assumed to be there. */
module Threads {
  import opened ThreadModel
  import Queue
  import PtrArray

  class Threads {
    const runqueue: Queue.Queue<Tid>
    const sleepers: PtrArray.PtrArray<Tid>
    const zombies: PtrArray.PtrArray<Tid>
    var curthread: Option<Tid>
    var numthreads: int
    var sleepaddr: map<Tid, Addr>
    var newborn: set<Tid>   // threads that have not run yet

    ghost predicate Valid()
      reads this, runqueue, sleepers, zombies
    {
      && runqueue.Valid() && sleepers.Valid() && zombies.Valid()
      && sleepers != zombies && sleepers.v != zombies.v
      && runqueue.data != sleepers.v && runqueue.data != zombies.v
    }

    ghost function View(): TS
      requires Valid()
      reads this, runqueue, sleepers, zombies, runqueue.data, sleepers.v, zombies.v
    {
      TS(curthread, runqueue.Contents(), sleepers.Contents(), zombies.Contents(), numthreads, sleepaddr)
    }

    /** thread_bootstrap and scheduler_bootstrap: one thread, running. */
    constructor (me: Tid)
      ensures Valid() && View() == TS(Some(me), [], [], [], 1, map[]) && Partition(View())
      ensures fresh(runqueue) && fresh(sleepers) && fresh(zombies)
      ensures fresh(runqueue.data) && fresh(sleepers.v) && fresh(zombies.v)
    {
      runqueue := new Queue.Queue<Tid>(32, 0);
      sleepers := new PtrArray.PtrArray<Tid>();
      zombies := new PtrArray.PtrArray<Tid>();
      curthread, numthreads, sleepaddr, newborn := Some(me), 1, map[], {};
    }

    /** make_runnable */
    method MakeRunnable(t: Tid)
      requires Valid()
      modifies runqueue, runqueue.data
      ensures Valid() && (runqueue.data == old(runqueue.data) || fresh(runqueue.data))
      ensures View() == old(View()).(ready := old(View()).ready + [t])
    {
      var ok := runqueue.AddTail(t, true, 0);
    }

    /** array_remove of sleeper i, and make_runnable. */
    method Rouse(i: nat)
      requires Valid() && i < sleepers.num
      modifies runqueue, runqueue.data, sleepers`num, sleepers.v
      ensures Valid() && (runqueue.data == old(runqueue.data) || fresh(runqueue.data))
      ensures View() == old(View()).(ready := old(View()).ready + [old(View()).sleepers[i]],
                                     sleepers := PtrArray.RemoveAt(old(View()).sleepers, i))
    {
      hide Queue.Ring;
      var t := sleepers.v[i];
      sleepers.Remove(i);
      MakeRunnable(t);
    }

    /** thread_wakeup: the index loop removes while it scans. */
    method Wakeup(a: Addr)
      requires Valid()
      modifies runqueue, runqueue.data, sleepers`num, sleepers.v
      ensures Valid() && (runqueue.data == old(runqueue.data) || fresh(runqueue.data))
      ensures View() == WokenAll(old(View()), a) && AllWoken(old(View()), View(), a)
    {
      hide Scanned, ScanIndex, Queue.Ring, PtrArray.RemoveAt, WokenAll, AllWoken;
      ghost var ts, k := View(), 0;
      var i := 0;
      ScanEnds(ts, a);
      while i < sleepers.num
        invariant Valid() && (runqueue.data == old(runqueue.data) || fresh(runqueue.data))
        invariant 0 <= k <= |ts.sleepers| && i == ScanIndex(ts, k, a) && View() == Scanned(ts, k, a)
        decreases |ts.sleepers| - k
      {
        var t := sleepers.v[i];
        assert t == View().sleepers[i] && |View().sleepers| == sleepers.num;
        ScanStep(ts, k, a);
        if t in sleepaddr && sleepaddr[t] == a {
          Rouse(i);
        } else {
          i := i + 1;
        }
        k := k + 1;
      }
      assert |View().sleepers| == sleepers.num;
      WokenAllExact(ts, a);
    }

    /** thread_wakeup_one */
    method WakeupOne(a: Addr)
      requires Valid()
      modifies runqueue, runqueue.data, sleepers`num, sleepers.v
      ensures Valid() && (runqueue.data == old(runqueue.data) || fresh(runqueue.data))
      ensures View() == WokenOne(old(View()), a) && OneWoken(old(View()), View(), a)
    {
      hide Queue.Ring, PtrArray.RemoveAt, OneWoken;
      WokenOneExact(View(), a);
      ghost var s := View().sleepers;
      for i := 0 to sleepers.num
        invariant Valid() && View() == old(View()) && runqueue.data == old(runqueue.data)
        invariant forall k :: 0 <= k < i ==> !On(sleepaddr, s[k], a)
      {
        var t := sleepers.v[i];
        assert t == s[i];
        if t in sleepaddr && sleepaddr[t] == a {
          assert FirstOn(s, sleepaddr, a) == i;
          Rouse(i);
          return;
        }
      }
    }

    /** scheduler: idles until something is runnable, then takes the head of the queue. */
    method Scheduler(irqs: seq<Addr>) returns (next: Tid)
      requires Valid() && curthread.None?
      requires Scheduled(View(), irqs).cur.Some?   // otherwise the cpu idles for ever
      modifies this`curthread, runqueue, runqueue.data, sleepers`num, sleepers.v
      ensures Valid() && (runqueue.data == old(runqueue.data) || fresh(runqueue.data))
      ensures View() == Scheduled(old(View()), irqs) && curthread == Some(next)
    {
      hide Queue.Ring, WokenAll, Rest, Matching;
      var k := 0;
      var empty := runqueue.Empty();
      while empty
        invariant Valid() && (runqueue.data == old(runqueue.data) || fresh(runqueue.data)) && curthread.None?
        invariant 0 <= k <= |irqs| && empty == (runqueue.Contents() == [])
        invariant Scheduled(View(), irqs[k..]) == Scheduled(old(View()), irqs)
        decreases |irqs| - k
      {
        // cpu_idle: an interrupt handler runs
        Wakeup(irqs[k]);
        assert irqs[k..][1..] == irqs[k + 1..];
        k := k + 1;
        empty := runqueue.Empty();
      }
      next := runqueue.RemHead();
      curthread := Some(next);
    }

    /** exorcise: zombies are disposed of; none of them is the current thread. */
    method Exorcise()
      requires Valid() && Partition(View())
      modifies zombies, zombies.v
      ensures Valid() && (zombies.v == old(zombies.v) || fresh(zombies.v))
      ensures View() == old(View()).(zombies := []) && Partition(View())
    {
      for i := 0 to zombies.num
        invariant Valid() && View() == old(View()) && zombies.v == old(zombies.v)
      {
        var z := zombies.v[i];
        assert z == zombies.Contents()[i];
        ZombiesStayDead(View(), z);
        if curthread == Some(z) {
          assert false;   // assert(z != curthread)
        }
      }
      var ok := zombies.SetSize(0, true, 0);
      ExorcisedPartition(old(View()));
    }

    /** mi_switch: the current thread goes on a list, the scheduler picks the next one, and
        unless that one starts for the first time the zombies are disposed of. */
    method Switch(next: NextState, irqs: seq<Addr>)
      requires Valid() && curthread.Some? && Scheduled(Stashed(View(), next), irqs).cur.Some?
      // thread_exit has already taken the thread out of the count
      requires Partition(if next == Zombie then View().(num := View().num + 1) else View())
      modifies this, runqueue, runqueue.data, sleepers, sleepers.v, zombies, zombies.v
      ensures Valid() && curthread.Some? && Partition(View())
      ensures var ts := Scheduled(Stashed(old(View()), next), irqs);
              View() == ts.(zombies := if ts.cur.value in old(newborn) then ts.zombies else [])
      ensures newborn == old(newborn) - {curthread.value}
    {
      hide Partition, Queue.Ring;
      SwitchKeeps(View(), next, irqs);
      var cur := curthread.value;
      curthread := None;
      var ok;
      match next {
        case Ready => MakeRunnable(cur);
        case Sleep => ok := sleepers.Add(cur, true, 0);
        case Zombie => ok := zombies.Add(cur, true, 0);
      }
      assert View() == Stashed(old(View()), next);
      var t := Scheduler(irqs);
      if t in newborn {
        newborn := newborn - {t};
      } else {
        Exorcise();
      }
    }

    /** thread_yield */
    method Yield(irqs: seq<Addr>)
      requires Valid() && Partition(View()) && curthread.Some?
      modifies this, runqueue, runqueue.data, sleepers, sleepers.v, zombies, zombies.v
      ensures Valid() && Partition(View()) && curthread.Some?
      ensures var q := old(View()).ready + [old(curthread).value];
              curthread == Some(q[0]) && View().ready == q[1..] && View().sleepers == old(View()).sleepers
      ensures newborn == old(newborn) - {curthread.value}
    {
      hide Partition, Queue.Ring;
      Switch(Ready, irqs);
    }

    /** thread_sleep, up to the moment some other thread runs: the caller is already among the
        sleepers, with its address recorded. */
    method Sleep(a: Addr, irqs: seq<Addr>)
      requires Valid() && Partition(View()) && curthread.Some?
      requires Scheduled(Stashed(View().(addr := View().addr[curthread.value := a]), ThreadModel.Sleep), irqs).cur.Some?
      modifies this, runqueue, runqueue.data, sleepers, sleepers.v, zombies, zombies.v
      ensures Valid() && Partition(View()) && curthread.Some? && View().num == old(View()).num
      ensures var ts0 := old(View()).(addr := old(View()).addr[old(curthread).value := a]);
              var ts := Scheduled(Stashed(ts0, ThreadModel.Sleep), irqs);
              View() == ts.(zombies := if ts.cur.value in old(newborn) then ts.zombies else [])
      ensures sleepaddr == old(sleepaddr)[old(curthread).value := a] && newborn == old(newborn) - {curthread.value}
      ensures old(View()).ready != [] ==>
                && curthread == Some(old(View()).ready[0]) && View().ready == old(View()).ready[1..]
                && View().sleepers == old(View()).sleepers + [old(curthread).value]
    {
      hide Partition, Queue.Ring;
      AddrPartition(View(), View().addr[curthread.value := a]);
      sleepaddr := sleepaddr[curthread.value := a];
      assert View() == old(View()).(addr := old(View()).addr[old(curthread).value := a]);
      StashedParts(View(), ThreadModel.Sleep);
      ScheduledLive(Stashed(View(), ThreadModel.Sleep), irqs);
      Switch(ThreadModel.Sleep, irqs);
    }

    /** thread_exit: the thread is not counted any more and never runs again. */
    method Exit(irqs: seq<Addr>)
      requires Valid() && Partition(View()) && curthread.Some?
      requires Scheduled(Stashed(View().(num := View().num - 1), Zombie), irqs).cur.Some?
      modifies this, runqueue, runqueue.data, sleepers, sleepers.v, zombies, zombies.v
      ensures Valid() && Partition(View()) && curthread.Some? && numthreads == old(numthreads) - 1
      ensures old(curthread).value !in Live(View()) && newborn == old(newborn) - {curthread.value}
      ensures old(View()).ready != [] ==>
                && curthread == Some(old(View()).ready[0]) && View().ready == old(View()).ready[1..]
                && View().sleepers == old(View()).sleepers
      ensures var ts := Scheduled(Stashed(old(View()).(num := old(View()).num - 1), Zombie), irqs);
              View() == ts.(zombies := if ts.cur.value in old(newborn) then ts.zombies else [])
    {
      hide Queue.Ring, Scheduled, Stashed, Partition, Live;
      ghost var ts := View();
      ExitDone(ts, irqs);
      if ts.ready != [] {
        ExitHead(ts, irqs);
      }
      numthreads := numthreads - 1;
      assert View() == ts.(num := ts.num - 1) && View().(num := View().num + 1) == ts;
      Switch(Zombie, irqs);
    }

    /** thread_fork, success path */
    method Fork(t: Tid)
      requires Valid() && Partition(View()) && t !in Live(View()) && t !in View().zombies
      modifies this`numthreads, this`newborn, runqueue, runqueue.data
      ensures Valid() && (runqueue.data == old(runqueue.data) || fresh(runqueue.data))
      ensures View() == Forked(old(View()), t) && Partition(View()) && newborn == old(newborn) + {t}
    {
      hide Partition, Queue.Ring, Live;
      ForkPartition(View(), t);
      MakeRunnable(t);
      newborn := newborn + {t};
      numthreads := numthreads + 1;
    }
  }

  lemma SwitchKeeps(ts: TS, next: NextState, irqs: seq<Addr>)
    requires ts.cur.Some? && Partition(if next == Zombie then ts.(num := ts.num + 1) else ts)
    ensures Partition(Scheduled(Stashed(ts, next), irqs))
  {
    hide Partition, Scheduled;
    if next == Zombie {
      ExitPartition(ts.(num := ts.num + 1), irqs);
      assert Stashed(ts.(num := ts.num + 1), Zombie).(num := ts.num) == Stashed(ts, Zombie);
    } else {
      SwitchPartition(ts, next, irqs);
    }
  }

  /** What is left of a thread that exits. */
  lemma ExitDone(ts: TS, irqs: seq<Addr>)
    requires Partition(ts) && ts.cur.Some?
    ensures var z := Scheduled(Stashed(ts.(num := ts.num - 1), Zombie), irqs);
            z.num == ts.num - 1 && forall zs :: ts.cur.value !in Live(z.(zombies := zs))
  {
    hide Scheduled, Partition;
    ExitPartition(ts, irqs);
    var ts1 := Stashed(ts.(num := ts.num - 1), Zombie);
    assert ts1 == Stashed(ts, Zombie).(num := ts.num - 1);
    ScheduledLive(ts1, irqs);
    forall zs
      ensures Live(Scheduled(ts1, irqs).(zombies := zs)) == Live(Scheduled(ts1, irqs))
    {
    }
  }

  lemma ExitHead(ts: TS, irqs: seq<Addr>)
    requires ts.cur.Some? && ts.ready != []
    ensures var z := Scheduled(Stashed(ts.(num := ts.num - 1), Zombie), irqs);
            z.cur == Some(ts.ready[0]) && z.ready == ts.ready[1..] && z.sleepers == ts.sleepers
  {
  }

  /** The lists after k slots of the original sleepers were looked at. */
  function Scanned(ts: TS, k: nat, a: Addr): TS
    requires k <= |ts.sleepers|
  {
    ts.(ready := ts.ready + Matching(ts.sleepers[..k], ts.addr, a),
        sleepers := Rest(ts.sleepers[..k], ts.addr, a) + ts.sleepers[k..])
  }

  /** Where the scan then stands in the shortened list. */
  function ScanIndex(ts: TS, k: nat, a: Addr): nat
    requires k <= |ts.sleepers|
  {
    |Rest(ts.sleepers[..k], ts.addr, a)|
  }

  lemma ScanEnds(ts: TS, a: Addr)
    ensures Scanned(ts, 0, a) == ts && ScanIndex(ts, 0, a) == 0
    ensures Scanned(ts, |ts.sleepers|, a) == WokenAll(ts, a)
    ensures forall k :: 0 <= k <= |ts.sleepers| ==>
              |Scanned(ts, k, a).sleepers| == ScanIndex(ts, k, a) + |ts.sleepers| - k
  {
    var s := ts.sleepers;
    assert s[..0] == [] && s[0..] == s && s[..|s|] == s;
  }

  /** One turn of the scan: slot k of the original list is either removed, and the same index is
      looked at again, or kept, and the index moves on. */
  lemma ScanStep(ts: TS, k: nat, a: Addr)
    requires k < |ts.sleepers|
    ensures var x, x', i, t := Scanned(ts, k, a), Scanned(ts, k + 1, a), ScanIndex(ts, k, a), ts.sleepers[k];
            && i < |x.sleepers| && x.sleepers[i] == t
            && (On(ts.addr, t, a) ==> ScanIndex(ts, k + 1, a) == i)
            && (On(ts.addr, t, a) ==> x' == x.(ready := x.ready + [t], sleepers := PtrArray.RemoveAt(x.sleepers, i)))
            && (!On(ts.addr, t, a) ==> ScanIndex(ts, k + 1, a) == i + 1 && x' == x)
  {
    var s := ts.sleepers;
    assert s[..k + 1][..k] == s[..k];
    assert s[k..] == [s[k]] + s[k + 1..];
  }
}
