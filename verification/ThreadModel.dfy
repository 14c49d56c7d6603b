/** The thread lists of kern/thread/thread.c as a value: what a switch and a wake-up do to
    them, and the partition they keep. */
module ThreadModel {
  import opened PtrArray

  type Tid = nat
  type Addr = nat

  datatype Option<T> = None | Some(value: T)

  /** curthread (None while the scheduler runs), the run queue, sleepers[], zombies[],
      numthreads and each thread's t_sleepaddr. */
  datatype TS = TS(
    cur: Option<Tid>, ready: seq<Tid>, sleepers: seq<Tid>, zombies: seq<Tid>, num: int, addr: map<Tid, Addr>)

  predicate On(addr: map<Tid, Addr>, t: Tid, a: Addr) { t in addr && addr[t] == a }

  /** The threads of s that sleep on a, in order. */
  function Matching(s: seq<Tid>, addr: map<Tid, Addr>, a: Addr): seq<Tid> {
    if s == [] then []
    else Matching(s[..|s| - 1], addr, a) + if On(addr, s[|s| - 1], a) then [s[|s| - 1]] else []
  }

  /** The others, in order. */
  function Rest(s: seq<Tid>, addr: map<Tid, Addr>, a: Addr): seq<Tid> {
    if s == [] then []
    else Rest(s[..|s| - 1], addr, a) + if On(addr, s[|s| - 1], a) then [] else [s[|s| - 1]]
  }

  /** thread_wakeup: exactly the sleepers on a go to the tail of the run queue, in order. */
  function WokenAll(ts: TS, a: Addr): TS {
    ts.(ready := ts.ready + Matching(ts.sleepers, ts.addr, a), sleepers := Rest(ts.sleepers, ts.addr, a))
  }

  /** The first sleeper on a, or the length of the list. */
  function FirstOn(s: seq<Tid>, addr: map<Tid, Addr>, a: Addr): (i: nat)
    ensures i <= |s| && (i < |s| ==> On(addr, s[i], a)) && forall k :: 0 <= k < i ==> !On(addr, s[k], a)
  {
    if s == [] then 0 else if On(addr, s[0], a) then 0 else 1 + FirstOn(s[1..], addr, a)
  }

  /** thread_wakeup_one */
  function WokenOne(ts: TS, a: Addr): TS {
    var i := FirstOn(ts.sleepers, ts.addr, a);
    if i < |ts.sleepers| then
      ts.(ready := ts.ready + [ts.sleepers[i]], sleepers := RemoveAt(ts.sleepers, i))
    else ts
  }

  datatype NextState = Ready | Sleep | Zombie

  /** The first half of mi_switch: the current thread goes on its list. */
  function Stashed(ts: TS, next: NextState): TS
    requires ts.cur.Some?
  {
    match next
    case Ready => ts.(cur := None, ready := ts.ready + [ts.cur.value])
    case Sleep => ts.(cur := None, sleepers := ts.sleepers + [ts.cur.value])
    case Zombie => ts.(cur := None, zombies := ts.zombies + [ts.cur.value])
  }

  /** scheduler: while nothing is runnable the cpu idles, and interrupt handlers may wake
      sleepers; then the head of the run queue becomes the current thread. */
  function Scheduled(ts: TS, irqs: seq<Addr>): TS
    decreases irqs
  {
    if ts.ready != [] then ts.(cur := Some(ts.ready[0]), ready := ts.ready[1..])
    else if irqs == [] then ts
    else Scheduled(WokenAll(ts, irqs[0]), irqs[1..])
  }

  // ---------------------------------------------------------------- the partition

  function CurOf(ts: TS): multiset<Tid> {
    if ts.cur.Some? then multiset{ts.cur.value} else multiset{}
  }

  /** Every thread that is not a zombie. */
  function Live(ts: TS): multiset<Tid> {
    CurOf(ts) + multiset(ts.ready) + multiset(ts.sleepers)
  }

  /** Every thread is in exactly one place and numthreads counts the live ones. */
  ghost predicate Partition(ts: TS) {
    && (forall t :: (Live(ts) + multiset(ts.zombies))[t] <= 1)
    && ts.num == |Live(ts)|
  }

  lemma {:induction false} MatchingRest(s: seq<Tid>, addr: map<Tid, Addr>, a: Addr)
    ensures multiset(Matching(s, addr, a)) + multiset(Rest(s, addr, a)) == multiset(s)
  {
    hide On;
    if s != [] {
      var p, x := s[..|s| - 1], s[|s| - 1];
      MatchingRest(p, addr, a);
      assert s == p + [x];
      if On(addr, x, a) {
        assert Matching(s, addr, a) == Matching(p, addr, a) + [x] && Rest(s, addr, a) == Rest(p, addr, a);
      } else {
        assert Matching(s, addr, a) == Matching(p, addr, a) && Rest(s, addr, a) == Rest(p, addr, a) + [x];
      }
    }
  }

  /** Who is woken and who stays. */
  lemma {:induction false} MatchingIff(s: seq<Tid>, addr: map<Tid, Addr>, a: Addr, t: Tid)
    ensures t in Matching(s, addr, a) <==> t in s && On(addr, t, a)
    ensures t in Rest(s, addr, a) <==> t in s && !On(addr, t, a)
  {
    if s != [] {
      var n := |s| - 1;
      MatchingIff(s[..n], addr, a, t);
      assert s == s[..n] + [s[n]];
    }
  }

  lemma WokenAllLive(ts: TS, a: Addr)
    ensures Live(WokenAll(ts, a)) == Live(ts)
  {
    MatchingRest(ts.sleepers, ts.addr, a);
  }

  lemma WokenOneLive(ts: TS, a: Addr)
    ensures Live(WokenOne(ts, a)) == Live(ts)
  {
    var s := ts.sleepers;
    var i := FirstOn(s, ts.addr, a);
    if i < |s| {
      assert s == s[..i] + [s[i]] + s[i + 1..];
    }
  }

  lemma {:induction false} ScheduledLive(ts: TS, irqs: seq<Addr>)
    requires ts.cur.None?
    ensures Live(Scheduled(ts, irqs)) == Live(ts) && Scheduled(ts, irqs).zombies == ts.zombies
    ensures Scheduled(ts, irqs).num == ts.num && Scheduled(ts, irqs).addr == ts.addr
    decreases irqs
  {
    if ts.ready != [] {
      assert ts.ready == [ts.ready[0]] + ts.ready[1..];
    } else if irqs != [] {
      WokenAllLive(ts, irqs[0]);
      ScheduledLive(WokenAll(ts, irqs[0]), irqs[1..]);
    }
  }

  lemma StashedLive(ts: TS, next: NextState)
    requires ts.cur.Some?
    ensures next != Zombie ==> Live(Stashed(ts, next)) == Live(ts)
    ensures next == Zombie ==> Live(Stashed(ts, next)) == Live(ts) - multiset{ts.cur.value}
    ensures Live(Stashed(ts, next)) + multiset(Stashed(ts, next).zombies) == Live(ts) + multiset(ts.zombies)
  {
  }

  /** Yielding and sleeping keep the partition, whatever interrupts do meanwhile. */
  lemma SwitchPartition(ts: TS, next: NextState, irqs: seq<Addr>)
    requires Partition(ts) && ts.cur.Some? && next != Zombie
    ensures Partition(Scheduled(Stashed(ts, next), irqs))
  {
    hide Live, Scheduled, Stashed;
    StashedLive(ts, next);
    StashedParts(ts, next);
    ScheduledLive(Stashed(ts, next), irqs);
  }

  lemma StashedParts(ts: TS, next: NextState)
    requires ts.cur.Some?
    ensures Stashed(ts, next).cur.None? && Stashed(ts, next).num == ts.num
    ensures next != Zombie ==> Stashed(ts, next).zombies == ts.zombies
  {
  }

  /** thread_exit lowers numthreads and moves the thread to the zombies. */
  lemma ExitPartition(ts: TS, irqs: seq<Addr>)
    requires Partition(ts) && ts.cur.Some?
    ensures Partition(Scheduled(Stashed(ts, Zombie).(num := ts.num - 1), irqs))
    ensures ts.cur.value !in Live(Scheduled(Stashed(ts, Zombie).(num := ts.num - 1), irqs))
  {
    var ts1 := Stashed(ts, Zombie).(num := ts.num - 1);
    StashedLive(ts, Zombie);
    assert Live(ts1) == Live(ts) - multiset{ts.cur.value};
    assert ts.cur.value in Live(ts);
    assert (Live(ts) + multiset(ts.zombies))[ts.cur.value] <= 1;
    ScheduledLive(ts1, irqs);
  }

  /** thread_fork, success path: the new thread is runnable and counted. */
  function Forked(ts: TS, t: Tid): TS {
    ts.(ready := ts.ready + [t], num := ts.num + 1)
  }

  lemma ForkPartition(ts: TS, t: Tid)
    requires Partition(ts) && t !in Live(ts) && t !in ts.zombies
    ensures Partition(Forked(ts, t))
  {
    assert Live(Forked(ts, t)) == Live(ts) + multiset{t};
    assert Live(ts)[t] == 0 && multiset(ts.zombies)[t] == 0;
    forall u
      ensures (Live(Forked(ts, t)) + multiset(ts.zombies))[u] <= 1
    {
      assert (Live(ts) + multiset(ts.zombies))[u] <= 1;
    }
  }

  lemma WakePartition(ts: TS, a: Addr)
    requires Partition(ts)
    ensures Partition(WokenAll(ts, a)) && Partition(WokenOne(ts, a))
  {
    WokenAllLive(ts, a);
    WokenOneLive(ts, a);
  }

  /** A zombie is no current, ready or sleeping thread, so nothing can make it runnable. */
  lemma ZombiesStayDead(ts: TS, t: Tid)
    requires Partition(ts) && t in ts.zombies
    ensures ts.cur != Some(t) && t !in ts.ready && t !in ts.sleepers
  {
    assert t in multiset(ts.zombies);
    assert (Live(ts) + multiset(ts.zombies))[t] <= 1;
    assert t !in Live(ts);
  }

  lemma StashedPartition(ts: TS, next: NextState)
    requires Partition(ts) && ts.cur.Some?
    ensures Partition(if next == Zombie then Stashed(ts, next).(num := ts.num - 1) else Stashed(ts, next))
  {
    var ts' := if next == Zombie then Stashed(ts, next).(num := ts.num - 1) else Stashed(ts, next);
    StashedLive(ts, next);
    assert Live(ts') == Live(Stashed(ts, next));
    assert ts.cur.value in Live(ts);
  }

  lemma AddrPartition(ts: TS, addr: map<Tid, Addr>)
    requires Partition(ts)
    ensures Partition(ts.(addr := addr))
  {
    assert Live(ts.(addr := addr)) == Live(ts);
  }

  lemma ExorcisedPartition(ts: TS)
    requires Partition(ts)
    ensures Partition(ts.(zombies := []))
  {
    assert Live(ts.(zombies := [])) == Live(ts);
    forall t
      ensures (Live(ts) + multiset([]))[t] <= 1
    {
      assert (Live(ts) + multiset(ts.zombies))[t] <= 1;
    }
  }

  lemma DispatchPartition(ts: TS)
    requires Partition(ts) && ts.cur.None?
    ensures Partition(Scheduled(ts, []))
  {
    ScheduledLive(ts, []);
  }

  lemma CurNotListed(ts: TS, t: Tid)
    requires Partition(ts) && ts.cur == Some(t)
    ensures t !in ts.sleepers && t !in ts.ready && t !in ts.zombies
  {
    assert (Live(ts) + multiset(ts.zombies))[t] <= 1;
    assert multiset(ts.sleepers)[t] == 0 && multiset(ts.ready)[t] == 0 && multiset(ts.zombies)[t] == 0;
  }

  /** Waking moves threads from the sleepers to the run queue and does nothing else. */
  ghost predicate WakesSome(ts: TS, ts': TS) {
    && ts'.cur == ts.cur && ts'.addr == ts.addr && ts'.zombies == ts.zombies
    && (forall t :: t in ts.ready ==> t in ts'.ready)
    && (forall t :: t in ts'.sleepers ==> t in ts.sleepers)
    && (forall t :: t in ts.sleepers ==> t in ts'.sleepers || t in ts'.ready)
  }

  lemma WokenAllWakes(ts: TS, a: Addr)
    ensures WakesSome(ts, WokenAll(ts, a))
    ensures forall t :: t in ts.sleepers && On(ts.addr, t, a) ==> t in WokenAll(ts, a).ready
    ensures forall t :: t in WokenAll(ts, a).sleepers ==> !On(ts.addr, t, a)
  {
    forall t
      ensures t in Matching(ts.sleepers, ts.addr, a) <==> t in ts.sleepers && On(ts.addr, t, a)
      ensures t in Rest(ts.sleepers, ts.addr, a) <==> t in ts.sleepers && !On(ts.addr, t, a)
    {
      MatchingIff(ts.sleepers, ts.addr, a, t);
    }
  }

  lemma WokenOneWakes(ts: TS, a: Addr)
    ensures WakesSome(ts, WokenOne(ts, a))
    ensures (exists t :: t in ts.sleepers && On(ts.addr, t, a)) ==>
              exists t :: t in ts.sleepers && On(ts.addr, t, a) && t in WokenOne(ts, a).ready
  {
    var s := ts.sleepers;
    var i := FirstOn(s, ts.addr, a);
    if i < |s| {
      assert s == s[..i] + [s[i]] + s[i + 1..];
      assert s[i] in WokenOne(ts, a).ready;
    }
  }

  // ---------------------------------------------------------------- who is woken, and in what order

  /** Element i is the first of s that sleeps on a. */
  predicate FirstOnAt(s: seq<Tid>, addr: map<Tid, Addr>, a: Addr, i: int) {
    0 <= i < |s| && On(addr, s[i], a) && forall k :: 0 <= k < i ==> !On(addr, s[k], a)
  }

  ghost predicate FirstIn(s: seq<Tid>, addr: map<Tid, Addr>, a: Addr, t: Tid) {
    exists i :: FirstOnAt(s, addr, a, i) && s[i] == t
  }

  predicate FirstAt(ts: TS, a: Addr, i: int) { FirstOnAt(ts.sleepers, ts.addr, a, i) }

  /** t is the first sleeper on a. */
  ghost predicate IsFirst(ts: TS, t: Tid, a: Addr) { FirstIn(ts.sleepers, ts.addr, a, t) }

  /** Only the two lists differ. */
  predicate ListsOnly(ts: TS, ts': TS) { ts' == ts.(ready := ts'.ready, sleepers := ts'.sleepers) }

  /** The first sleeper on a went to the tail of the run queue and the others stayed in their
      order; or nobody sleeps on a and nothing changed. */
  ghost predicate OneWoken(ts: TS, ts': TS, a: Addr) {
    && ListsOnly(ts, ts')
    && ((exists i :: && FirstAt(ts, a, i) && ts'.ready == ts.ready + [ts.sleepers[i]]
                     && ts'.sleepers == ts.sleepers[..i] + ts.sleepers[i + 1..])
        || (ts' == ts && forall t :: t in ts.sleepers ==> !On(ts.addr, t, a)))
  }

  /** w lists the elements of s at the places idx, from left to right; these are the threads that
      sleep on a, or those that do not. */
  ghost predicate Picked(s: seq<Tid>, w: seq<Tid>, idx: seq<nat>, addr: map<Tid, Addr>, a: Addr, on: bool) {
    && |idx| == |w|
    && (forall j :: 0 <= j < |w| ==> idx[j] < |s| && w[j] == s[idx[j]])
    && (forall i, j :: 0 <= i < j < |idx| ==> idx[i] < idx[j])
    && (forall i: nat :: i in idx <==> i < |s| && On(addr, s[i], a) == on)
  }

  ghost predicate InOrder(s: seq<Tid>, w: seq<Tid>, addr: map<Tid, Addr>, a: Addr, on: bool) {
    exists idx :: Picked(s, w, idx, addr, a, on)
  }

  /** The sleepers on a went to the tail of the run queue, and the others stayed, each in their
      order. */
  ghost predicate AllWoken(ts: TS, ts': TS, a: Addr) {
    && ListsOnly(ts, ts')
    && |ts.ready| <= |ts'.ready| && ts'.ready[..|ts.ready|] == ts.ready
    && InOrder(ts.sleepers, ts'.ready[|ts.ready|..], ts.addr, a, true)
    && InOrder(ts.sleepers, ts'.sleepers, ts.addr, a, false)
  }

  lemma WokenOneExact(ts: TS, a: Addr)
    ensures OneWoken(ts, WokenOne(ts, a), a)
  {
    var i := FirstOn(ts.sleepers, ts.addr, a);
    if i < |ts.sleepers| {
      assert FirstAt(ts, a, i);
    }
  }

  lemma WokenAllExact(ts: TS, a: Addr)
    ensures AllWoken(ts, WokenAll(ts, a), a)
  {
    var m, r := PickedOnes(ts.sleepers, ts.addr, a);
    var ts' := WokenAll(ts, a);
    assert ts'.ready[|ts.ready|..] == Matching(ts.sleepers, ts.addr, a);
  }

  lemma {:induction false} PickedOnes(s: seq<Tid>, addr: map<Tid, Addr>, a: Addr) returns (m: seq<nat>, r: seq<nat>)
    ensures Picked(s, Matching(s, addr, a), m, addr, a, true) && Picked(s, Rest(s, addr, a), r, addr, a, false)
  {
    hide Picked, On;
    if s == [] {
      PickEmpty(addr, a);
      return [], [];
    }
    var n := |s| - 1;
    var p := s[..n];
    m, r := PickedOnes(p, addr, a);
    if On(addr, s[n], a) {
      assert Matching(s, addr, a) == Matching(p, addr, a) + [s[n]] && Rest(s, addr, a) == Rest(p, addr, a);
      PickMore(s, Matching(p, addr, a), m, addr, a, true);
      PickNone(s, Rest(p, addr, a), r, addr, a, false);
      m := m + [n];
    } else {
      assert Rest(s, addr, a) == Rest(p, addr, a) + [s[n]] && Matching(s, addr, a) == Matching(p, addr, a);
      PickMore(s, Rest(p, addr, a), r, addr, a, false);
      PickNone(s, Matching(p, addr, a), m, addr, a, true);
      r := r + [n];
    }
  }

  lemma PickEmpty(addr: map<Tid, Addr>, a: Addr)
    ensures Picked([], [], [], addr, a, true) && Picked([], [], [], addr, a, false)
  {
  }

  lemma PickMore(s: seq<Tid>, w: seq<Tid>, idx: seq<nat>, addr: map<Tid, Addr>, a: Addr, on: bool)
    requires s != [] && Picked(s[..|s| - 1], w, idx, addr, a, on) && On(addr, s[|s| - 1], a) == on
    ensures Picked(s, w + [s[|s| - 1]], idx + [|s| - 1], addr, a, on)
  {
    var n, idx' := |s| - 1, idx + [|s| - 1];
    forall i: nat
      ensures i in idx' <==> i < |s| && On(addr, s[i], a) == on
    {
      assert i in idx' <==> i in idx || i == n;
      assert i < n ==> s[..n][i] == s[i];
    }
  }

  lemma PickNone(s: seq<Tid>, w: seq<Tid>, idx: seq<nat>, addr: map<Tid, Addr>, a: Addr, on: bool)
    requires s != [] && Picked(s[..|s| - 1], w, idx, addr, a, on) && On(addr, s[|s| - 1], a) != on
    ensures Picked(s, w, idx, addr, a, on)
  {
    var n := |s| - 1;
    forall i: nat
      ensures i in idx <==> i < |s| && On(addr, s[i], a) == on
    {
      assert i < n ==> s[..n][i] == s[i];
    }
  }

  /** A thread leaves the sleepers when one is woken exactly if it is the first one. */
  lemma OneLeaves(ts: TS, ts': TS, a: Addr, t: Tid)
    requires Partition(ts) && OneWoken(ts, ts', a)
    ensures t in ts'.sleepers <==> t in ts.sleepers && !IsFirst(ts, t, a)
    ensures t in ts'.ready <==> t in ts.ready || IsFirst(ts, t, a)
  {
    hide Partition;
    if i :| FirstAt(ts, a, i) {
      var s := ts.sleepers;
      assert s == s[..i] + [s[i]] + s[i + 1..];
      assert s[i] !in s[..i] && s[i] !in s[i + 1..] by { SleepsOnce(ts, i); }
      assert IsFirst(ts, t, a) <==> t == s[i] by {
        assert FirstOnAt(s, ts.addr, a, i);
        assert forall k :: FirstOnAt(s, ts.addr, a, k) ==> k == i;
      }
    } else {
      assert !IsFirst(ts, t, a);
    }
  }

  lemma SleepsOnce(ts: TS, i: nat)
    requires Partition(ts) && i < |ts.sleepers|
    ensures ts.sleepers[i] !in ts.sleepers[..i] && ts.sleepers[i] !in ts.sleepers[i + 1..]
  {
    var s, t := ts.sleepers, ts.sleepers[i];
    assert s == s[..i] + [t] + s[i + 1..];
    assert multiset(s)[t] == multiset(s[..i])[t] + 1 + multiset(s[i + 1..])[t];
    assert (Live(ts) + multiset(ts.zombies))[t] <= 1;
    assert multiset(s[..i])[t] == 0 && multiset(s[i + 1..])[t] == 0;
  }

  predicate NoneOn(s: seq<Tid>, addr: map<Tid, Addr>, a: Addr) { forall k :: 0 <= k < |s| ==> !On(addr, s[k], a) }

  /** The first one on b in two lists is that of the first list, or of the second if the first
      has none. */
  lemma FirstConcat(x: seq<Tid>, y: seq<Tid>, addr: map<Tid, Addr>, b: Addr, t: Tid)
    ensures FirstIn(x + y, addr, b, t) <==> FirstIn(x, addr, b, t) || (NoneOn(x, addr, b) && FirstIn(y, addr, b, t))
    ensures NoneOn(x + y, addr, b) <==> NoneOn(x, addr, b) && NoneOn(y, addr, b)
  {
    hide On;
    var z := x + y;
    assert forall k :: 0 <= k < |x| ==> z[k] == x[k];
    assert forall k :: 0 <= k < |y| ==> z[|x| + k] == y[k];
    if i :| FirstOnAt(x, addr, b, i) && x[i] == t {
      assert FirstOnAt(z, addr, b, i);
    }
    if i :| NoneOn(x, addr, b) && FirstOnAt(y, addr, b, i) && y[i] == t {
      forall k | 0 <= k < |x| + i ensures !On(addr, z[k], b) { assert k >= |x| ==> z[k] == y[k - |x|]; }
      assert FirstOnAt(z, addr, b, |x| + i);
    }
    if i :| FirstOnAt(z, addr, b, i) && z[i] == t {
      if i < |x| {
        assert FirstOnAt(x, addr, b, i);
      } else {
        assert FirstOnAt(y, addr, b, i - |x|);
      }
    }
    if NoneOn(x, addr, b) && NoneOn(y, addr, b) {
      forall k | 0 <= k < |z| ensures !On(addr, z[k], b) { assert k >= |x| ==> z[k] == y[k - |x|]; }
    }
  }

  /** An element that does not sleep on b makes no difference. */
  lemma FirstWithout(x: seq<Tid>, u: Tid, y: seq<Tid>, addr: map<Tid, Addr>, b: Addr, t: Tid)
    requires !On(addr, u, b)
    ensures FirstIn(x + [u] + y, addr, b, t) <==> FirstIn(x + y, addr, b, t)
  {
    hide FirstIn, On;
    FirstConcat(x, y, addr, b, t);
    FirstConcat(x, [u], addr, b, t);
    FirstConcat(x + [u], y, addr, b, t);
    NotFirst(u, addr, b, t);
  }

  lemma NotFirst(u: Tid, addr: map<Tid, Addr>, b: Addr, t: Tid)
    requires !On(addr, u, b)
    ensures !FirstIn([u], addr, b, t) && NoneOn([u], addr, b)
  {
  }

  /** Waking the first one on a leaves the first one on b where it is. */
  lemma FirstStays(ts: TS, ts': TS, a: Addr, b: Addr, t: Tid)
    requires OneWoken(ts, ts', a) && a != b
    ensures IsFirst(ts', t, b) <==> IsFirst(ts, t, b)
  {
    hide FirstIn;
    if i :| && FirstAt(ts, a, i) && ts'.ready == ts.ready + [ts.sleepers[i]]
            && ts'.sleepers == ts.sleepers[..i] + ts.sleepers[i + 1..] {
      var s := ts.sleepers;
      FirstWithout(s[..i], s[i], s[i + 1..], ts.addr, b, t);
      assert s == s[..i] + [s[i]] + s[i + 1..];
    }
  }

  /** The same when all on a are woken. */
  lemma FirstRemains(ts: TS, a: Addr, b: Addr, t: Tid)
    requires a != b
    ensures IsFirst(WokenAll(ts, a), t, b) <==> IsFirst(ts, t, b)
  {
    RestFirst(ts.sleepers, ts.addr, a, b, t);
  }

  lemma {:induction false} RestFirst(s: seq<Tid>, addr: map<Tid, Addr>, a: Addr, b: Addr, t: Tid)
    requires a != b
    ensures FirstIn(Rest(s, addr, a), addr, b, t) <==> FirstIn(s, addr, b, t)
    ensures NoneOn(Rest(s, addr, a), addr, b) <==> NoneOn(s, addr, b)
  {
    hide FirstIn, NoneOn;
    if s != [] {
      var p, x := s[..|s| - 1], s[|s| - 1];
      RestFirst(p, addr, a, b, t);
      FirstConcat(p, [x], addr, b, t);
      assert s == p + [x];
      FirstConcat(Rest(p, addr, a), [x], addr, b, t);
      if On(addr, x, a) {
        NotFirst(x, addr, b, t);
        assert Rest(s, addr, a) == Rest(p, addr, a);
      } else {
        assert Rest(s, addr, a) == Rest(p, addr, a) + [x];
      }
    }
  }

  /** All on a leave, and nobody else. */
  lemma AllLeave(ts: TS, a: Addr, t: Tid)
    ensures t in WokenAll(ts, a).sleepers <==> t in ts.sleepers && !On(ts.addr, t, a)
    ensures t in WokenAll(ts, a).ready <==> t in ts.ready || (t in ts.sleepers && On(ts.addr, t, a))
  {
    MatchingIff(ts.sleepers, ts.addr, a, t);
  }
}
