/** kern/asst1/stoplight.c over the semaphores of kern/thread/synch.c: any number of cars,
    each a program of P and V operations, interleaved in any order. A car that finds a
    semaphore at zero goes to sleep on it; V wakes every sleeper. */
module Stoplight {

  datatype Sem = NW | SW | SE | NE | Intersection
  datatype Direction = North | East | South | West
  datatype Turn = Straight | Left | Right
  datatype Instr = P(sem: Sem) | V(sem: Sem)

  /** gostraight, turnleft and turnright, branch by branch. */
  function Program(d: Direction, t: Turn): seq<Instr> {
    match (t, d)
    case (Straight, North) => [P(Intersection), P(NW), P(SW), V(NW), V(SW), V(Intersection)]
    case (Straight, East) => [P(Intersection), P(NE), P(NW), V(NE), V(NW), V(Intersection)]
    case (Straight, South) => [P(Intersection), P(SE), P(NE), V(SE), V(NE), V(Intersection)]
    case (Straight, West) => [P(Intersection), P(SW), P(SE), V(SW), V(SE), V(Intersection)]
    case (Left, North) => [P(Intersection), P(NW), P(SW), V(NW), P(SE), V(SW), V(SE), V(Intersection)]
    case (Left, East) => [P(Intersection), P(NE), P(NW), V(NE), P(SW), V(NW), V(SW), V(Intersection)]
    case (Left, South) => [P(Intersection), P(SE), P(NE), V(SE), P(NW), V(NE), V(NW), V(Intersection)]
    case (Left, West) => [P(Intersection), P(SW), P(SE), V(SW), P(NE), V(SE), V(NE), V(Intersection)]
    case (Right, North) => [P(Intersection), P(NW), V(NW), V(Intersection)]
    case (Right, East) => [P(Intersection), P(NE), V(NE), V(Intersection)]
    case (Right, South) => [P(Intersection), P(SE), V(SE), V(Intersection)]
    case (Right, West) => [P(Intersection), P(SW), V(SW), V(Intersection)]
  }

  datatype Car = Car(dir: Direction, turn: Turn, pc: nat, asleep: bool) {
    function Code(): seq<Instr> { Program(dir, turn) }
    predicate Done() { pc >= |Code()| }
    function Left(): nat { if Done() then 0 else |Code()| - pc }

    /** The instruction the car is at. */
    function Instr(): Instr
      requires !Done()
    {
      Code()[pc]
    }
  }

  datatype Counts = Counts(nw: nat, sw: nat, se: nat, ne: nat, intersection: nat) {
    function Get(x: Sem): nat {
      match x case NW => nw case SW => sw case SE => se case NE => ne case Intersection => intersection
    }

    function Set(x: Sem, n: nat): (r: Counts)
      ensures forall y :: r.Get(y) == if y == x then n else Get(y)
    {
      match x
      case NW => this.(nw := n)
      case SW => this.(sw := n)
      case SE => this.(se := n)
      case NE => this.(ne := n)
      case Intersection => this.(intersection := n)
    }
  }

  datatype State = State(cars: seq<Car>, counts: Counts)

  /** createcars: the initial counts of the semaphores. */
  const InitialCounts := Counts(1, 1, 1, 1, 3)

  predicate Initial(s: State) {
    s.counts == InitialCounts && forall c :: 0 <= c < |s.cars| ==> s.cars[c].pc == 0 && !s.cars[c].asleep
  }

  predicate SleepsOn(car: Car, x: Sem) {
    car.asleep && !car.Done() && car.Instr() == P(x)
  }

  /** thread_wakeup on the address of semaphore x. */
  function WakeAll(cars: seq<Car>, x: Sem): (r: seq<Car>)
    ensures |r| == |cars|
    ensures forall c :: 0 <= c < |cars| ==> r[c] == if SleepsOn(cars[c], x) then cars[c].(asleep := false) else cars[c]
  {
    seq(|cars|, c requires 0 <= c < |cars| => if SleepsOn(cars[c], x) then cars[c].(asleep := false) else cars[c])
  }

  predicate Enabled(s: State, c: nat) {
    c < |s.cars| && !s.cars[c].asleep && !s.cars[c].Done()
  }

  /** One atomic section of car c: a P that succeeds, a P that goes to sleep, or a V. */
  function Step(s: State, c: nat): State
    requires Enabled(s, c)
  {
    var car := s.cars[c];
    match car.Instr()
    case P(x) =>
      if s.counts.Get(x) == 0 then s.(cars := s.cars[c := car.(asleep := true)])
      else State(s.cars[c := car.(pc := car.pc + 1)], s.counts.Set(x, s.counts.Get(x) - 1))
    case V(x) =>
      State(WakeAll(s.cars[c := car.(pc := car.pc + 1)], x), s.counts.Set(x, s.counts.Get(x) + 1))
  }

  // ---------------------------------------------------------------- what a car holds

  /** Acquisitions minus releases of x in the first pc instructions. */
  function Balance(code: seq<Instr>, pc: nat, x: Sem): int
    requires pc <= |code|
  {
    if pc == 0 then 0
    else Balance(code, pc - 1, x) + if code[pc - 1] == P(x) then 1 else if code[pc - 1] == V(x) then -1 else 0
  }

  function Holding(car: Car, x: Sem): int {
    if car.Done() then Balance(car.Code(), |car.Code()|, x) else Balance(car.Code(), car.pc, x)
  }

  /** The region a car enters after r; the regions form a cycle. */
  function Next(r: Sem): Sem {
    match r case NW => SW case SW => SE case SE => NE case NE => NW case Intersection => Intersection
  }

  function First(d: Direction): Sem {
    match d case North => NW case East => NE case South => SE case West => SW
  }

  /** All twelve programs follow the cycle. */
  function Shape(r: Sem, t: Turn): seq<Instr> {
    match t
    case Straight => [P(Intersection), P(r), P(Next(r)), V(r), V(Next(r)), V(Intersection)]
    case Left =>
      [P(Intersection), P(r), P(Next(r)), V(r), P(Next(Next(r))), V(Next(r)), V(Next(Next(r))), V(Intersection)]
    case Right => [P(Intersection), P(r), V(r), V(Intersection)]
  }

  lemma ProgramShape(d: Direction, t: Turn)
    ensures Program(d, t) == Shape(First(d), t)
  {
  }

  function Held(r: Sem, t: Turn, pc: nat): set<Sem> {
    if pc == 0 || pc >= |Shape(r, t)| then {}
    else if pc == 1 || pc == |Shape(r, t)| - 1 then {Intersection}
    else if pc == 2 then {Intersection, r}
    else if pc == 3 then {Intersection, r, Next(r)}
    else if pc == 4 then {Intersection, Next(r)}
    else if pc == 5 then {Intersection, Next(r), Next(Next(r))}
    else {Intersection, Next(Next(r))}
  }

  lemma HeldStep(r: Sem, t: Turn, pc: nat)
    requires r != Intersection && 0 < pc <= |Shape(r, t)|
    ensures match Shape(r, t)[pc - 1]
            case P(x) => x !in Held(r, t, pc - 1) && Held(r, t, pc) == Held(r, t, pc - 1) + {x}
            case V(x) => x in Held(r, t, pc - 1) && Held(r, t, pc) == Held(r, t, pc - 1) - {x}
  {
    var q, u := Next(r), Next(Next(r));
    assert q != r && u != q && u != r && q != Intersection && u != Intersection;
    match t
    case Straight =>
    case Left =>
    case Right =>
  }

  lemma {:induction false} BalanceHeld(r: Sem, t: Turn, pc: nat, x: Sem)
    requires r != Intersection && pc <= |Shape(r, t)|
    ensures Balance(Shape(r, t), pc, x) == if x in Held(r, t, pc) then 1 else 0
  {
    if pc > 0 {
      hide Held, Shape;
      BalanceHeld(r, t, pc - 1, x);
      HeldStep(r, t, pc);
    }
  }

  /** What a car holds and waits for: nothing before it is admitted; a car that waits for a
      region and holds one waits for the next one in the cycle and holds no other. */
  lemma CarFacts(car: Car, x: Sem)
    ensures 0 <= Holding(car, x) <= 1
    ensures car.Done() || car.pc == 0 ==> Holding(car, x) == 0
    ensures !car.Done() && car.pc > 0 ==> Holding(car, Intersection) == 1
    ensures !car.Done() && car.Instr() == P(Intersection) ==> car.pc == 0
    ensures !car.Done() && car.Instr().P? && x != Intersection && Holding(car, x) == 1 ==> car.Instr().sem == Next(x)
  {
    ProgramShape(car.dir, car.turn);
    var r := First(car.dir);
    var pc := if car.Done() then |Shape(r, car.turn)| else car.pc;
    BalanceHeld(r, car.turn, pc, x);
    BalanceHeld(r, car.turn, pc, Intersection);
  }

  /** How many units of x all cars hold together. */
  function Total(cars: seq<Car>, x: Sem): int {
    if cars == [] then 0 else Total(cars[..|cars| - 1], x) + Holding(cars[|cars| - 1], x)
  }

  lemma {:induction false} TotalUpdate(cars: seq<Car>, cars': seq<Car>, c: nat, x: Sem)
    requires |cars'| == |cars| && c < |cars|
    requires forall k :: 0 <= k < |cars| && k != c ==> Holding(cars'[k], x) == Holding(cars[k], x)
    ensures Total(cars', x) == Total(cars, x) - Holding(cars[c], x) + Holding(cars'[c], x)
  {
    var n := |cars| - 1;
    if c == n {
      TotalSame(cars[..n], cars'[..n], x);
    } else {
      TotalUpdate(cars[..n], cars'[..n], c, x);
    }
  }

  lemma {:induction false} TotalSame(cars: seq<Car>, cars': seq<Car>, x: Sem)
    requires |cars'| == |cars|
    requires forall k :: 0 <= k < |cars| ==> Holding(cars'[k], x) == Holding(cars[k], x)
    ensures Total(cars', x) == Total(cars, x)
  {
    if cars != [] { TotalSame(cars[..|cars| - 1], cars'[..|cars| - 1], x); }
  }

  /** Distinct holders add up. */
  lemma {:induction false} TotalAtLeast(cars: seq<Car>, x: Sem, ids: set<nat>)
    requires forall k :: k in ids ==> k < |cars| && Holding(cars[k], x) == 1
    ensures |ids| <= Total(cars, x)
  {
    if cars == [] {
      assert ids == {};
    } else {
      var n := |cars| - 1;
      CarFacts(cars[n], x);
      TotalAtLeast(cars[..n], x, ids - {n});
    }
  }

  /** Conversely, something that is held has a holder. */
  lemma {:induction false} SomeHolder(cars: seq<Car>, x: Sem) returns (c: nat)
    requires Total(cars, x) > 0
    ensures c < |cars| && Holding(cars[c], x) == 1
  {
    var n := |cars| - 1;
    CarFacts(cars[n], x);
    if Holding(cars[n], x) == 1 {
      c := n;
    } else {
      c := SomeHolder(cars[..n], x);
    }
  }

  lemma {:induction false} TotalZero(cars: seq<Car>, x: Sem)
    requires forall k :: 0 <= k < |cars| ==> Holding(cars[k], x) == 0
    ensures Total(cars, x) == 0
  {
    if cars != [] { TotalZero(cars[..|cars| - 1], x); }
  }

  // ---------------------------------------------------------------- the way a car takes

  /** Directions as the source numbers them. */
  function Number(d: Direction): nat { match d case North => 0 case East => 1 case South => 2 case West => 3 }

  /** Where a car that turns as t is heading for: two, one or three directions further on. */
  predicate Heading(d: Direction, t: Turn, dest: Direction) {
    Number(dest) == (Number(d) + match t case Straight => 2 case Left => 1 case Right => 3) % 4
  }

  /** Traffic keeps to the right: the region a car from d comes into first, and the region from
      which it leaves towards d. */
  function Entry(d: Direction): Sem { match d case North => NW case East => NE case South => SE case West => SW }

  function Exit(d: Direction): Sem { match d case North => NE case East => SE case South => SW case West => NW }

  /** Regions that share a side. */
  predicate Beside(a: Sem, b: Sem) {
    || ((a == NW || a == SE) && (b == NE || b == SW))
    || ((a == NE || a == SW) && (b == NW || b == SE))
  }

  /** The regions in the order in which the code takes them. */
  function Regions(code: seq<Instr>): seq<Sem> {
    if code == [] then []
    else Regions(code[..|code| - 1]) +
         (match code[|code| - 1] case P(x) => if x == Intersection then [] else [x] case V(_) => [])
  }

  function Turning(t: Turn): nat { match t case Straight => 2 case Left => 3 case Right => 1 }

  /** way is a way through the intersection from d to dest: it begins where cars from d come in,
      ends where cars leave towards dest, goes from each region to one beside it, and enters
      none twice. */
  predicate Way(d: Direction, dest: Direction, way: seq<Sem>) {
    && way != [] && way[0] == Entry(d) && way[|way| - 1] == Exit(dest)
    && (forall j :: 0 < j < |way| ==> Beside(way[j - 1], way[j]))
    && (forall i, j :: 0 <= i < j < |way| ==> way[i] != way[j])
  }

  /** The first pc instructions hold x. */
  predicate Holds(code: seq<Instr>, pc: nat, x: Sem) { pc <= |code| && Balance(code, pc, x) == 1 }

  /** The code takes the regions of way hand over hand: it comes into the intersection first and
      leaves it last, takes each further region while it holds the one before, and gives a region
      up only while it holds the next one, or as the last of all. */
  ghost predicate HandOverHand(code: seq<Instr>, way: seq<Sem>) {
    && |code| == 2 * |way| + 2 && code[0] == P(Intersection) && code[|code| - 1] == V(Intersection)
    && Regions(code) == way
    && (forall pc, j :: 0 <= pc < |code| && 0 < j < |way| && code[pc] == P(way[j]) ==> Holds(code, pc, way[j - 1]))
    && (forall pc, j :: 0 <= pc < |code| && 0 <= j < |way| && code[pc] == V(way[j]) ==>
          Holds(code, pc, way[j]) && (j + 1 < |way| ==> Holds(code, pc, way[j + 1])))
    && (forall pc :: 0 < pc < |code| ==> Holds(code, pc, Intersection))
  }

  /** Every car goes from its direction to its destination, through two regions straight ahead,
      three to the left and one to the right, hand over hand. */
  lemma Route(d: Direction, t: Turn, dest: Direction)
    requires Heading(d, t, dest)
    ensures var way := Regions(Program(d, t));
            Way(d, dest, way) && |way| == Turning(t) && HandOverHand(Program(d, t), way)
  {
    hide HandOverHand, Regions;
    ProgramShape(d, t);
    var r := First(d);
    ShapeRegions(r, t);
    ShapeHands(r, t);
  }

  lemma ShapeRegions(r: Sem, t: Turn)
    requires r != Intersection
    ensures Regions(Shape(r, t)) ==
            match t case Straight => [r, Next(r)] case Left => [r, Next(r), Next(Next(r))] case Right => [r]
  {
    hide Regions;
    var q, u := Next(r), Next(Next(r));
    assert q != Intersection && u != Intersection;
    NoRegions();
    var c1 := RegionsMore([], P(Intersection));
    var c2 := RegionsMore(c1, P(r));
    match t {
      case Right =>
        var c3 := RegionsMore(c2, V(r));
        var c4 := RegionsMore(c3, V(Intersection));
        assert c4 == Shape(r, t);
      case Straight =>
        var c3 := RegionsMore(c2, P(q));
        var c4 := RegionsMore(c3, V(r));
        var c5 := RegionsMore(c4, V(q));
        var c6 := RegionsMore(c5, V(Intersection));
        assert c6 == Shape(r, t);
      case Left =>
        var c3 := RegionsMore(c2, P(q));
        var c4 := RegionsMore(c3, V(r));
        var c5 := RegionsMore(c4, P(u));
        var c6 := RegionsMore(c5, V(q));
        var c7 := RegionsMore(c6, V(u));
        var c8 := RegionsMore(c7, V(Intersection));
        assert c8 == Shape(r, t);
    }
  }

  lemma NoRegions()
    ensures Regions([]) == []
  {
  }

  lemma RegionsMore(code: seq<Instr>, i: Instr) returns (code': seq<Instr>)
    ensures code' == code + [i]
    ensures Regions(code') == Regions(code) + if i.P? && i.sem != Intersection then [i.sem] else []
  {
    code' := code + [i];
    assert code'[..|code|] == code;
  }

  lemma ShapeHands(r: Sem, t: Turn)
    requires r != Intersection
    ensures HandOverHand(Shape(r, t), Regions(Shape(r, t)))
  {
    hide Balance, Regions, Holds, Held;
    ShapeRegions(r, t);
    var q, u := Next(r), Next(Next(r));
    assert q != r && u != q && u != r && q != Intersection && u != Intersection;
    forall pc: nat, x | pc <= |Shape(r, t)|
      ensures Holds(Shape(r, t), pc, x) <==> x in Held(r, t, pc)
    {
      HoldsHeld(r, t, pc, x);
    }
    HeldAt(r, t);
  }

  lemma HoldsHeld(r: Sem, t: Turn, pc: nat, x: Sem)
    requires r != Intersection && pc <= |Shape(r, t)|
    ensures Holds(Shape(r, t), pc, x) <==> x in Held(r, t, pc)
  {
    BalanceHeld(r, t, pc, x);
  }

  /** Held along the three shapes. */
  lemma HeldAt(r: Sem, t: Turn)
    ensures forall pc :: 0 < pc < |Shape(r, t)| ==> Intersection in Held(r, t, pc)
    ensures r in Held(r, t, 2)
    ensures t != Right ==> r in Held(r, t, 3) && Next(r) in Held(r, t, 3) && Next(r) in Held(r, t, 4)
    ensures t == Left ==>
              Next(r) in Held(r, t, 5) && Next(Next(r)) in Held(r, t, 5) && Next(Next(r)) in Held(r, t, 6)
  {
  }

  // ---------------------------------------------------------------- the invariant

  /** Each semaphore's count plus what cars hold of it is its initial count, and whoever sleeps
      on a semaphore finds it at zero. */
  ghost predicate Inv(s: State) {
    && (forall x :: s.counts.Get(x) + Total(s.cars, x) == InitialCounts.Get(x))
    && (forall c :: 0 <= c < |s.cars| && s.cars[c].asleep ==>
          !s.cars[c].Done() && s.cars[c].Instr().P? && s.counts.Get(s.cars[c].Instr().sem) == 0)
  }

  lemma InitialInv(s: State)
    requires Initial(s)
    ensures Inv(s)
  {
    forall x
      ensures Total(s.cars, x) == 0
    {
      forall k | 0 <= k < |s.cars| ensures Holding(s.cars[k], x) == 0 { CarFacts(s.cars[k], x); }
      TotalZero(s.cars, x);
    }
  }

  lemma StepTotals(s: State, c: nat, x: Sem)
    requires Inv(s) && Enabled(s, c)
    ensures Step(s, c).counts.Get(x) + Total(Step(s, c).cars, x) == InitialCounts.Get(x)
  {
    hide Program, Inv;
    var car, s' := s.cars[c], Step(s, c);
    assert s.counts.Get(x) + Total(s.cars, x) == InitialCounts.Get(x) by { InvAt(s, x); }
    TotalUpdate(s.cars, s'.cars, c, x);
    StepHolding(car, x);
  }

  lemma InvAt(s: State, x: Sem)
    requires Inv(s)
    ensures s.counts.Get(x) + Total(s.cars, x) == InitialCounts.Get(x)
  {
  }

  lemma StepHolding(car: Car, x: Sem)
    requires !car.Done()
    ensures var d := if car.Instr() == P(x) then 1 else if car.Instr() == V(x) then -1 else 0;
            Holding(car.(pc := car.pc + 1), x) == Holding(car, x) + d
  {
    hide Program;
  }

  lemma StepInv(s: State, c: nat)
    requires Inv(s) && Enabled(s, c)
    ensures Inv(Step(s, c))
  {
    hide Program, Total;
    forall x ensures Step(s, c).counts.Get(x) + Total(Step(s, c).cars, x) == InitialCounts.Get(x) {
      StepTotals(s, c, x);
    }
  }

  // ---------------------------------------------------------------- safety and progress

  /** At most one car is in a region, and at most three are in the intersection. */
  lemma MutualExclusion(s: State, x: Sem, ids: set<nat>)
    requires Inv(s) && forall k :: k in ids ==> k < |s.cars| && Holding(s.cars[k], x) == 1
    ensures |ids| <= if x == Intersection then 3 else 1
  {
    TotalAtLeast(s.cars, x, ids);
  }

  ghost predicate Stuck(s: State) {
    forall c :: 0 <= c < |s.cars| ==> !Enabled(s, c)
  }

  /** In a state without an enabled car, a region at zero is held by a sleeper that waits for
      the next region, which is at zero as well. */
  lemma ChainStep(s: State, r: Sem) returns (c: nat)
    requires Inv(s) && Stuck(s) && r != Intersection && s.counts.Get(r) == 0
    ensures c < |s.cars| && Holding(s.cars[c], r) == 1 && Holding(s.cars[c], Intersection) == 1
    ensures forall q :: q != Intersection && q != r ==> Holding(s.cars[c], q) == 0
    ensures s.counts.Get(Next(r)) == 0
  {
    hide Program, Holding;
    c := SomeHolder(s.cars, r);
    var car := s.cars[c];
    CarFacts(car, r);
    assert !Enabled(s, c);
    forall q | q != Intersection && q != r
      ensures Holding(car, q) == 0
    {
      CarFacts(car, q);
    }
  }

  /** Deadlock freedom: while some car is not done, some car can take a step. */
  lemma NoDeadlock(s: State)
    requires Inv(s) && Stuck(s)
    ensures forall c :: 0 <= c < |s.cars| ==> s.cars[c].Done()
  {
    hide Program, Holding, Total;
    if c :| 0 <= c < |s.cars| && !s.cars[c].Done() {
      assert !Enabled(s, c);
      var x := s.cars[c].Instr().sem;
      if x == Intersection {
        // the intersection is full; some car in it is asleep on a region
        var h := SomeHolder(s.cars, Intersection);
        CarFacts(s.cars[h], Intersection);
        assert !Enabled(s, h);
        x := s.cars[h].Instr().sem;
      }
      var a := ChainStep(s, x);
      var b := ChainStep(s, Next(x));
      var d := ChainStep(s, Next(Next(x)));
      var e := ChainStep(s, Next(Next(Next(x))));
      assert |{a, b, d, e}| == 4;
      MutualExclusion(s, Intersection, {a, b, d, e});
      assert false;
    }
  }

  // ---------------------------------------------------------------- termination and whole runs

  /** Operations still to be done by all cars. */
  function Remaining(cars: seq<Car>): nat {
    if cars == [] then 0 else Remaining(cars[..|cars| - 1]) + cars[|cars| - 1].Left()
  }

  function Awake(cars: seq<Car>): nat {
    if cars == [] then 0 else Awake(cars[..|cars| - 1]) + if cars[|cars| - 1].asleep then 0 else 1
  }

  lemma {:induction false} AwakeBound(cars: seq<Car>)
    ensures Awake(cars) <= |cars|
  {
    if cars != [] { AwakeBound(cars[..|cars| - 1]); }
  }

  lemma {:induction false} SameLeft(cars: seq<Car>, cars': seq<Car>)
    requires |cars'| == |cars| && forall k :: 0 <= k < |cars| ==> cars'[k].Left() == cars[k].Left()
    ensures Remaining(cars') == Remaining(cars)
  {
    if cars != [] { SameLeft(cars[..|cars| - 1], cars'[..|cars| - 1]); }
  }

  lemma {:induction false} OneLess(cars: seq<Car>, cars': seq<Car>, c: nat)
    requires |cars'| == |cars| && c < |cars|
    requires forall k :: 0 <= k < |cars| && k != c ==> cars'[k].Left() == cars[k].Left()
    ensures Remaining(cars') == Remaining(cars) - cars[c].Left() + cars'[c].Left()
  {
    var n := |cars| - 1;
    if c == n {
      SameLeft(cars[..n], cars'[..n]);
    } else {
      OneLess(cars[..n], cars'[..n], c);
    }
  }

  lemma {:induction false} FallAsleep(cars: seq<Car>, c: nat)
    requires c < |cars| && !cars[c].asleep
    ensures Awake(cars[c := cars[c].(asleep := true)]) == Awake(cars) - 1
  {
    var n := |cars| - 1;
    if c == n {
      assert cars[c := cars[c].(asleep := true)][..n] == cars[..n];
    } else {
      assert cars[c := cars[c].(asleep := true)][..n] == cars[..n][c := cars[c].(asleep := true)];
      FallAsleep(cars[..n], c);
    }
  }

  /** Remaining operations first, awake cars second. */
  function Measure(s: State): nat {
    Remaining(s.cars) * (|s.cars| + 1) + Awake(s.cars)
  }

  /** Every step makes progress: it does an operation, or it puts a car to sleep. */
  lemma StepMeasure(s: State, c: nat)
    requires Enabled(s, c)
    ensures Measure(Step(s, c)) < Measure(s) && |Step(s, c).cars| == |s.cars|
  {
    hide Program;
    var s' := Step(s, c);
    AwakeBound(s'.cars);
    OneLess(s.cars, s'.cars, c);
    if s'.cars[c].pc == s.cars[c].pc {
      FallAsleep(s.cars, c);
    } else {
      Smaller(Remaining(s.cars), Remaining(s'.cars), |s.cars|, Awake(s.cars), Awake(s'.cars));
    }
  }

  lemma Smaller(m: nat, m': nat, n: nat, k: nat, k': nat)
    requires m' + 1 == m && k' <= n
    ensures m' * (n + 1) + k' < m * (n + 1) + k
  {
    assert m * (n + 1) == m' * (n + 1) + (n + 1);
  }

  /** A run: the states visited when the cars of sched take their steps in turn. */
  ghost predicate IsRun(states: seq<State>, sched: seq<nat>) {
    && |states| == |sched| + 1 && Initial(states[0])
    && forall k :: 0 <= k < |sched| ==> Enabled(states[k], sched[k]) && states[k + 1] == Step(states[k], sched[k])
  }

  lemma {:induction false} RunInv(states: seq<State>, sched: seq<nat>, k: nat)
    requires IsRun(states, sched) && k < |states|
    ensures Inv(states[k]) && Measure(states[k]) + k <= Measure(states[0])
  {
    hide Inv, Measure, Step, Enabled, Initial;
    if k == 0 {
      InitialInv(states[0]);
    } else {
      RunInv(states, sched, k - 1);
      StepInv(states[k - 1], sched[k - 1]);
      StepMeasure(states[k - 1], sched[k - 1]);
    }
  }

  /** No run is longer than the measure of its first state. */
  lemma RunsEnd(states: seq<State>, sched: seq<nat>)
    requires IsRun(states, sched)
    ensures |sched| <= Measure(states[0])
  {
    hide Measure, Step, Enabled, Initial;
    RunInv(states, sched, |sched|);
  }

  /** A run that cannot go on has taken every car through, and every semaphore is back at its
      initial count with nobody asleep. */
  lemma Completion(states: seq<State>, sched: seq<nat>)
    requires IsRun(states, sched) && Stuck(states[|sched|])
    ensures var s := states[|sched|];
            && s.counts == Counts(1, 1, 1, 1, 3)
            && forall c :: 0 <= c < |s.cars| ==> s.cars[c].Done() && !s.cars[c].asleep
  {
    hide Measure, Step, Program;
    var s := states[|sched|];
    RunInv(states, sched, |sched|);
    NoDeadlock(s);
    forall x
      ensures s.counts.Get(x) == InitialCounts.Get(x)
    {
      forall k | 0 <= k < |s.cars| ensures Holding(s.cars[k], x) == 0 { CarFacts(s.cars[k], x); }
      TotalZero(s.cars, x);
    }
    SameCounts(s.counts, InitialCounts);
  }

  lemma SameCounts(a: Counts, b: Counts)
    requires forall x :: a.Get(x) == b.Get(x)
    ensures a == b
  {
    assert a.Get(NW) == b.Get(NW) && a.Get(SW) == b.Get(SW) && a.Get(SE) == b.Get(SE) && a.Get(NE) == b.Get(NE);
    assert a.Get(Intersection) == b.Get(Intersection);
  }

  // ---------------------------------------------------------------- every car takes its way

  /** A step moves no car but c, and c by at most one instruction. */
  lemma StepMoves(s: State, c: nat, k: nat)
    requires Enabled(s, c) && k < |s.cars|
    ensures |Step(s, c).cars| == |s.cars|
    ensures var a, b := s.cars[k], Step(s, c).cars[k];
            b.dir == a.dir && b.turn == a.turn && a.pc <= b.pc <= a.pc + 1
  {
    hide Program;
  }

  lemma {:induction false} SameCar(states: seq<State>, sched: seq<nat>, c: nat, n: nat, m: nat)
    requires IsRun(states, sched) && n <= m < |states| && c < |states[0].cars|
    ensures |states[m].cars| == |states[n].cars| == |states[0].cars|
    ensures var a, b := states[n].cars[c], states[m].cars[c]; b.dir == a.dir && b.turn == a.turn && a.pc <= b.pc
    decreases m
  {
    hide Step, Enabled, Initial;
    if n < m {
      SameCar(states, sched, c, n, m - 1);
      StepMoves(states[m - 1], sched[m - 1], c);
    } else if m > 0 {
      SameCar(states, sched, c, m - 1, m - 1);
      StepMoves(states[m - 1], sched[m - 1], c);
    }
  }

  /** A car passes through every instruction up to where it is. */
  lemma {:induction false} Visits(states: seq<State>, sched: seq<nat>, c: nat, pc: nat, n: nat) returns (k: nat)
    requires IsRun(states, sched) && n < |states| && c < |states[0].cars| == |states[n].cars|
    requires pc <= states[n].cars[c].pc
    ensures k <= n && |states[k].cars| == |states[0].cars| && states[k].cars[c].pc == pc
    decreases n
  {
    hide Step, Enabled;
    SameCar(states, sched, c, n, n);
    if states[n].cars[c].pc == pc {
      return n;
    }
    SameCar(states, sched, c, n - 1, n);
    StepMoves(states[n - 1], sched[n - 1], c);
    k := Visits(states, sched, c, pc, n - 1);
  }

  /** Car c holds x and no other car does. */
  ghost predicate Alone(s: State, c: nat, x: Sem) {
    c < |s.cars| && forall k :: 0 <= k < |s.cars| ==> Holding(s.cars[k], x) == if k == c then 1 else 0
  }

  lemma AloneIn(s: State, c: nat, x: Sem)
    requires Inv(s) && c < |s.cars| && Holding(s.cars[c], x) == 1 && x != Intersection
    ensures Alone(s, c, x)
  {
    hide Program, Holding, Inv;
    forall k | 0 <= k < |s.cars| && k != c
      ensures Holding(s.cars[k], x) == 0
    {
      CarFacts(s.cars[k], x);
      if Holding(s.cars[k], x) == 1 {
        assert |{c, k}| == 2;
        MutualExclusion(s, x, {c, k});
      }
    }
  }

  /** Where the code holds the regions of its way, one after the other. */
  lemma WayPcs(d: Direction, t: Turn) returns (pcs: seq<nat>)
    ensures var code := Program(d, t);
            var way := Regions(code);
            && |pcs| == |way| == Turning(t) && (forall j :: 0 <= j < |way| ==> way[j] != Intersection)
            && (forall j :: 0 <= j < |pcs| ==> pcs[j] < |code| && Holds(code, pcs[j], way[j]))
            && (forall i, j :: 0 <= i < j < |pcs| ==> pcs[i] < pcs[j])
  {
    hide Balance, Regions, Holds, Held;
    ProgramShape(d, t);
    var r := First(d);
    ShapeRegions(r, t);
    HeldAt(r, t);
    pcs := match t case Straight => [2, 3] case Left => [2, 3, 5] case Right => [2];
    HoldsHeld(r, t, 2, r);
    if t != Right { HoldsHeld(r, t, 3, Next(r)); }
    if t == Left { HoldsHeld(r, t, 5, Next(Next(r))); }
  }

  /** Over every run that cannot go on, every car has gone the whole way from its direction to its
      destination, region by region, and has been alone in each of them. */
  lemma DriveThrough(states: seq<State>, sched: seq<nat>, c: nat, dest: Direction)
    returns (way: seq<Sem>, times: seq<nat>)
    requires IsRun(states, sched) && Stuck(states[|sched|]) && c < |states[0].cars|
    requires Heading(states[0].cars[c].dir, states[0].cars[c].turn, dest)
    ensures Way(states[0].cars[c].dir, dest, way) && |way| == Turning(states[0].cars[c].turn)
    ensures |times| == |way| && forall j :: 0 <= j < |way| ==> times[j] < |states| && Alone(states[times[j]], c, way[j])
    ensures forall i, j :: 0 <= i < j < |times| ==> times[i] < times[j]
  {
    hide Program, Step, Enabled, Initial, Inv, Measure, Holding, HandOverHand, Stuck, Way;
    var car := states[0].cars[c];
    Route(car.dir, car.turn, dest);
    way := Regions(Program(car.dir, car.turn));
    var pcs := WayPcs(car.dir, car.turn);
    SameCar(states, sched, c, 0, |sched|);
    Completion(states, sched);
    times := [];
    for j := 0 to |way|
      invariant |times| == j
      invariant forall i :: 0 <= i < j ==> times[i] < |states| && Alone(states[times[i]], c, way[i])
      invariant forall i :: 0 <= i < j ==> |states[times[i]].cars| > c && states[times[i]].cars[c].pc == pcs[i]
      invariant forall i, k :: 0 <= i < k < j ==> times[i] < times[k]
    {
      var n := Visits(states, sched, c, pcs[j], |sched|);
      RunInv(states, sched, n);
      SameCar(states, sched, c, 0, n);
      HoldingAt(states[n].cars[c], way[j]);
      AloneIn(states[n], c, way[j]);
      forall i | 0 <= i < j
        ensures times[i] < n
      {
        if n <= times[i] { SameCar(states, sched, c, n, times[i]); }
      }
      times := times + [n];
    }
  }

  lemma HoldingAt(car: Car, x: Sem)
    requires !car.Done() && Holds(car.Code(), car.pc, x)
    ensures Holding(car, x) == 1
  {
    hide Program;
  }
}
