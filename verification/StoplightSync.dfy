/** The cars of kern/asst1/stoplight.c as threads of the kernel: every execution in which the cars
    call P and V of kern/thread/synch.c is an execution of the intersection protocol. */
module StoplightSync {
  import SL = Stoplight
  import opened PtrArray
  import opened Synch
  import opened ThreadModel

  /** The kernel's semaphore behind one of the protocol. */
  function Id(x: SL.Sem): Synch.Sem {
    match x case NW => 0 case SW => 1 case SE => 2 case NE => 3 case Intersection => 4
  }

  /** Car c is thread c: it sleeps exactly when the thread does, on the semaphore of its P. */
  ghost predicate CarSim(car: SL.Car, s: Sys, t: Tid) {
    && (t in s.ts.sleepers <==> car.asleep)
    && (car.asleep ==> !car.Done() && car.Instr().P? && On(s.ts.addr, t, SemAddr(Id(car.Instr().sem))))
  }

  ghost predicate Sim(st: SL.State, s: Sys) {
    && (forall x :: Count(s, Id(x)) == st.counts.Get(x))
    && (forall c :: 0 <= c < |st.cars| ==> CarSim(st.cars[c], s, c))
  }

  /** e is the next P or V of the car that is running, or another pass of its P. */
  predicate Drives(st: SL.State, s: Sys, e: Event) {
    && s.ts.cur.Some? && SL.Enabled(st, s.ts.cur.value)
    && match st.cars[s.ts.cur.value].Instr()
       case P(x) => e == P(Id(x)) || (e == Resume && PcOf(s, s.ts.cur.value) == Downing(Id(x)))
       case V(x) => e == V(Id(x))
  }

  /** Switches, interrupts, and threads that come and go. */
  predicate Background(e: Event) {
    || e.Dispatch? || e.Yield? || e.Exit? || e.Fork? || e.Exorcise?
    || (e.Interrupt? && forall x :: e.a != SemAddr(Id(x)))
    || (e.V? && forall x :: e.m != Id(x))
  }

  lemma Woken(s: Sys, a: Addr, t: Tid)
    ensures t in WokenAll(s.ts, a).sleepers <==> t in s.ts.sleepers && !On(s.ts.addr, t, a)
  {
    MatchingIff(s.ts.sleepers, s.ts.addr, a, t);
  }

  /** A background event leaves every car as it is. */
  lemma BackgroundSim(st: SL.State, s: Sys, e: Event)
    requires Sim(st, s) && Enabled(s, e) && Background(e)
    ensures Sim(st, Step(s, e))
  {
    hide Rest, Matching;
    var s' := Step(s, e);
    forall c | 0 <= c < |st.cars|
      ensures CarSim(st.cars[c], s', c)
    {
      assert CarSim(st.cars[c], s, c);
      if e.Interrupt? {
        Woken(s, e.a, c);
      } else if e.V? {
        Woken(s, SemAddr(e.m), c);
      }
    }
  }

  lemma PSim(st: SL.State, s: Sys, c: nat, x: SL.Sem)
    requires Inv(s) && Sim(st, s) && s.ts.cur == Some(c) && SL.Enabled(st, c) && st.cars[c].Instr() == SL.P(x)
    ensures Sim(SL.Step(st, c), DoP(s, Id(x)))
  {
    hide Partition, SL.Program, SemAddr;
    CurNotListed(s.ts, c);
    var st', s' := SL.Step(st, c), DoP(s, Id(x));
    forall d | 0 <= d < |st'.cars|
      ensures CarSim(st'.cars[d], s', d)
    {
      assert CarSim(st.cars[d], s, d);
    }
  }

  lemma VSim(st: SL.State, s: Sys, c: nat, x: SL.Sem)
    requires Inv(s) && Sim(st, s) && s.ts.cur == Some(c) && SL.Enabled(st, c) && st.cars[c].Instr() == SL.V(x)
    ensures Sim(SL.Step(st, c), DoV(s, Id(x)))
  {
    hide Partition, SL.Program, Rest, Matching;
    CurNotListed(s.ts, c);
    var st', s' := SL.Step(st, c), DoV(s, Id(x));
    forall d | 0 <= d < |st'.cars|
      ensures CarSim(st'.cars[d], s', d)
    {
      assert CarSim(st.cars[d], s, d);
      Woken(s, SemAddr(Id(x)), d);
    }
  }

  /** P and V of the kernel do what the protocol's do. */
  lemma DrivesSim(st: SL.State, s: Sys, e: Event)
    requires Inv(s) && Sim(st, s) && Enabled(s, e) && Drives(st, s, e)
    ensures Sim(SL.Step(st, s.ts.cur.value), Step(s, e))
  {
    hide Inv, Sim, DoP, DoV, SL.Step, SL.Program;
    var c := s.ts.cur.value;
    match st.cars[c].Instr() {
      case P(x) => PSim(st, s, c, x);
      case V(x) => VSim(st, s, c, x);
    }
  }

  /** Every event of the run is one or the other. */
  predicate Matches(st: SL.State, s: Sys, run: seq<Event>)
    requires Legal(s, run)
    decreases |run|
  {
    run == [] ||
    if Drives(st, s, run[0]) then Matches(SL.Step(st, s.ts.cur.value), Step(s, run[0]), run[1..])
    else Background(run[0]) && Matches(st, Step(s, run[0]), run[1..])
  }

  /** Where the protocol is after the run. */
  function Follow(st: SL.State, s: Sys, run: seq<Event>): SL.State
    requires Legal(s, run)
    decreases |run|
  {
    if run == [] then st
    else if Drives(st, s, run[0]) then Follow(SL.Step(st, s.ts.cur.value), Step(s, run[0]), run[1..])
    else Follow(st, Step(s, run[0]), run[1..])
  }

  lemma {:induction false} RunSim(st: SL.State, s: Sys, run: seq<Event>)
    requires Inv(s) && Sim(st, s) && SL.Inv(st) && Legal(s, run) && Matches(st, s, run)
    ensures Sim(Follow(st, s, run), After(s, run)) && SL.Inv(Follow(st, s, run))
    decreases |run|
  {
    hide Inv, Sim, Step, Enabled, Drives, Background, SL.Inv, SL.Step;
    if run != [] {
      StepInv(s, run[0]);
      var s1 := Step(s, run[0]);
      if Drives(st, s, run[0]) {
        DrivesSim(st, s, run[0]);
        DrivesEnabled(st, s, run[0]);
        SL.StepInv(st, s.ts.cur.value);
        RunSim(SL.Step(st, s.ts.cur.value), s1, run[1..]);
      } else {
        BackgroundSim(st, s, run[0]);
        RunSim(st, s1, run[1..]);
      }
    }
  }

  lemma DrivesEnabled(st: SL.State, s: Sys, e: Event)
    requires Drives(st, s, e)
    ensures s.ts.cur.Some? && SL.Enabled(st, s.ts.cur.value)
  {
  }

  /** Over every interleaving of the kernel in which the cars run their programs: no region ever
      holds more cars than its semaphore admits, and what the kernel's semaphores count is what
      the protocol's do. */
  lemma KernelIntersection(st: SL.State, s: Sys, run: seq<Event>, x: SL.Sem, ids: set<nat>)
    requires SL.Initial(st) && Inv(s) && Sim(st, s) && Legal(s, run) && Matches(st, s, run)
    requires var cars := Follow(st, s, run).cars; forall k :: k in ids ==> k < |cars| && SL.Holding(cars[k], x) == 1
    ensures |ids| <= if x == SL.Intersection then 3 else 1
    ensures Count(After(s, run), Id(x)) == Follow(st, s, run).counts.Get(x)
  {
    hide Inv, SL.Inv, SL.Holding, SL.Initial, Matches, Follow, Legal, After;
    SL.InitialInv(st);
    RunSim(st, s, run);
    SL.MutualExclusion(Follow(st, s, run), x, ids);
  }
}
