/** The round-robin worker pipeline, client/coding/encoder.cc and decoder.cc: an adder deals
    items to N workers in turn, and a collector takes their results in turn. */
module Pipeline {
  import opened Wrappers
  import opened RingBuffer

  datatype Lane<T, U> = Lane(input: Queue<T>, held: Option<U>, output: Queue<U>)

  /** Whose turn it is: completed rounds, and the lane that is next. */
  datatype Turn = Turn(round: nat, lane: nat)

  function NextTurn(t: Turn, n: nat): Turn {
    if t.lane + 1 >= n then Turn(t.round + 1, 0) else Turn(t.round, t.lane + 1)
  }

  /** `added` and `received` record what the adder put in and what the collector got out. */
  datatype State<T, U> = State(lanes: seq<Lane<T, U>>, adder: Turn, collector: Turn, added: seq<T>, received: seq<U>)

  datatype Action<T> = Add(item: T) | Take(lane: nat) | Put(lane: nat) | Collect

  /** What stays the same throughout a run: the number of workers, the sizes of the buffers, and what a worker does. */
  datatype Setup<!T, !U> = Setup(n: nat, maxIn: nat, maxOut: nat, work: T -> U)

  /** The thread of the action is not waiting on a condition variable. */
  predicate CanRun<T, U>(p: Setup<T, U>, s: State<T, U>, a: Action<T>)
    requires |s.lanes| == p.n && s.adder.lane < p.n && s.collector.lane < p.n
  {
    match a
    case Add(_) => !s.lanes[s.adder.lane].input.producer.Waiting?
    case Take(i) => i < p.n && s.lanes[i].held.None? && !s.lanes[i].input.consumer.Waiting?
    case Put(i) => i < p.n && s.lanes[i].held.Some? && !s.lanes[i].output.producer.Waiting?
    case Collect => !s.lanes[s.collector.lane].output.consumer.Waiting?
  }

  // ---------------------------------------------------------------- the invariant

  ghost predicate Shape<T, U>(p: Setup<T, U>, s: State<T, U>) {
    && p.n > 0 && p.maxIn > 0 && p.maxOut > 0
    && |s.lanes| == p.n && s.adder.lane < p.n && s.collector.lane < p.n
    && forall i :: 0 <= i < p.n ==> ValidQueue(s.lanes[i].input, p.maxIn) && ValidQueue(s.lanes[i].output, p.maxOut)
  }

  /** How many items a turn has dealt to, or taken from, lane i. */
  function CountAt(t: Turn, i: nat): nat {
    t.round + if i < t.lane then 1 else 0
  }

  /** Which item of all is item j of lane i. */
  function Index(n: nat, i: nat, j: nat): nat {
    j * n + i
  }

  function Map<T, U>(f: T -> U, s: seq<T>): (r: seq<U>)
    ensures |r| == |s| && forall k {:trigger r[k]} :: 0 <= k < |s| ==> r[k] == f(s[k])
  {
    seq(|s|, k requires 0 <= k < |s| => f(s[k]))
  }

  function Held<U>(h: Option<U>): seq<U> {
    if h.Some? then [h.value] else []
  }

  /** The results of lane i that the collector has yet to take, oldest first. */
  ghost function InFlight<T, U>(p: Setup<T, U>, l: Lane<T, U>): seq<U> {
    l.output.items + Held(l.held) + Map(p.work, l.input.items)
  }

  /** They are those of the items dealt to the lane and not yet collected, in order. */
  ghost predicate InOrder<T, U>(p: Setup<T, U>, added: seq<T>, i: nat, flight: seq<U>, collected: nat, dealt: nat) {
    && collected + |flight| == dealt
    && forall k {:trigger ResultOf(p, added, i, flight, collected, k)} :: 0 <= k < |flight| ==>
         ResultOf(p, added, i, flight, collected, k)
  }

  ghost predicate ResultOf<T, U>(p: Setup<T, U>, added: seq<T>, i: nat, flight: seq<U>, collected: nat, k: nat)
    requires k < |flight|
  {
    Index(p.n, i, collected + k) < |added| && flight[k] == p.work(added[Index(p.n, i, collected + k)])
  }

  ghost predicate LaneInOrder<T, U>(p: Setup<T, U>, s: State<T, U>, i: nat)
    requires i < |s.lanes|
  {
    InOrder(p, s.added, i, InFlight(p, s.lanes[i]), CountAt(s.collector, i), CountAt(s.adder, i))
  }

  /** What came out is what went in, worked on, in the same order. */
  ghost predicate SameOrder<T, U>(work: T -> U, added: seq<T>, received: seq<U>) {
    |received| <= |added| && forall k {:trigger received[k]} :: 0 <= k < |received| ==> received[k] == work(added[k])
  }

  ghost predicate Inv<T, U>(p: Setup<T, U>, s: State<T, U>) {
    && Shape(p, s)
    && |s.added| == Index(p.n, s.adder.lane, s.adder.round)
    && |s.received| == Index(p.n, s.collector.lane, s.collector.round)
    && SameOrder(p.work, s.added, s.received)
    && forall i {:trigger LaneInOrder(p, s, i)} :: 0 <= i < p.n ==> LaneInOrder(p, s, i)
  }

  lemma TurnAdvances(t: Turn, n: nat)
    requires t.lane < n
    ensures NextTurn(t, n).lane < n
    ensures Index(n, NextTurn(t, n).lane, NextTurn(t, n).round) == Index(n, t.lane, t.round) + 1
    ensures forall i :: 0 <= i < n ==> CountAt(NextTurn(t, n), i) == CountAt(t, i) + if i == t.lane then 1 else 0
  {
  }

  // ---------------------------------------------------------------- the steps

  function AddStep<T, U>(p: Setup<T, U>, s: State<T, U>, x: T): State<T, U>
    requires |s.lanes| == p.n && s.adder.lane < p.n
  {
    var l := s.lanes[s.adder.lane];
    var lanes := s.lanes[s.adder.lane := l.(input := Insert(l.input, p.maxIn, x))];
    if MustWaitFull(l.input, p.maxIn) then s.(lanes := lanes)
    else s.(lanes := lanes, adder := NextTurn(s.adder, p.n), added := s.added + [x])
  }

  function TakeStep<T, U>(p: Setup<T, U>, l: Lane<T, U>): Lane<T, U>
    requires MustWaitEmpty(l.input) || |l.input.items| > 0
  {
    if MustWaitEmpty(l.input) then l.(input := Extract(l.input))
    else l.(input := Extract(l.input), held := Some(p.work(l.input.items[0])))
  }

  function PutStep<T, U>(p: Setup<T, U>, l: Lane<T, U>): Lane<T, U>
    requires l.held.Some?
  {
    if MustWaitFull(l.output, p.maxOut) then l.(output := Insert(l.output, p.maxOut, l.held.value))
    else l.(output := Insert(l.output, p.maxOut, l.held.value), held := None)
  }

  function CollectStep<T, U>(p: Setup<T, U>, s: State<T, U>): State<T, U>
    requires |s.lanes| == p.n && s.collector.lane < p.n
    requires MustWaitEmpty(s.lanes[s.collector.lane].output) || |s.lanes[s.collector.lane].output.items| > 0
  {
    var l := s.lanes[s.collector.lane];
    var lanes := s.lanes[s.collector.lane := l.(output := Extract(l.output))];
    if MustWaitEmpty(l.output) then s.(lanes := lanes)
    else s.(lanes := lanes, collector := NextTurn(s.collector, p.n), received := s.received + [l.output.items[0]])
  }

  /** One critical section of the thread of the action. */
  function Step<T, U>(p: Setup<T, U>, s: State<T, U>, a: Action<T>): State<T, U>
    requires Shape(p, s) && CanRun(p, s, a)
  {
    match a
    case Add(x) => AddStep(p, s, x)
    case Take(i) => ExtractKeeps(s.lanes[i].input, p.maxIn); s.(lanes := s.lanes[i := TakeStep(p, s.lanes[i])])
    case Put(i) => s.(lanes := s.lanes[i := PutStep(p, s.lanes[i])])
    case Collect => ExtractKeeps(s.lanes[s.collector.lane].output, p.maxOut); CollectStep(p, s)
  }

  lemma AddKeeps<T, U>(p: Setup<T, U>, s: State<T, U>, x: T)
    requires Inv(p, s) && CanRun(p, s, Add(x))
    ensures Inv(p, AddStep(p, s, x))
  {
    var s', i := AddStep(p, s, x), s.adder.lane;
    var l := s.lanes[i];
    InsertKeeps(l.input, p.maxIn, x);
    TurnAdvances(s.adder, p.n);
    AddedLast(p, l, x);
    forall j | 0 <= j < p.n ensures LaneInOrder(p, s', j) {
      assert LaneInOrder(p, s, j);
      InOrderSnoc(p, s.added, j, InFlight(p, s.lanes[j]), CountAt(s.collector, j), CountAt(s.adder, j), x);
    }
  }

  lemma InOrderSnoc<T, U>(p: Setup<T, U>, added: seq<T>, i: nat, flight: seq<U>, collected: nat, dealt: nat, x: T)
    requires InOrder(p, added, i, flight, collected, dealt)
    ensures InOrder(p, added + [x], i, flight, collected, dealt)
    ensures Index(p.n, i, dealt) == |added| ==> InOrder(p, added + [x], i, flight + [p.work(x)], collected, dealt + 1)
  {
    forall k | 0 <= k < |flight|
      ensures ResultOf(p, added + [x], i, flight, collected, k)
      ensures ResultOf(p, added + [x], i, flight + [p.work(x)], collected, k)
    {
      assert ResultOf(p, added, i, flight, collected, k);
    }
    if Index(p.n, i, dealt) == |added| {
      assert collected + |flight| == dealt;
      assert ResultOf(p, added + [x], i, flight + [p.work(x)], collected, |flight|);
    }
  }

  lemma InOrderTail<T, U>(p: Setup<T, U>, added: seq<T>, i: nat, flight: seq<U>, collected: nat, dealt: nat)
    requires InOrder(p, added, i, flight, collected, dealt) && flight != []
    ensures Index(p.n, i, collected) < |added| && flight[0] == p.work(added[Index(p.n, i, collected)])
    ensures InOrder(p, added, i, flight[1..], collected + 1, dealt)
  {
    assert ResultOf(p, added, i, flight, collected, 0);
    var rest, after := flight[1..], collected + 1;
    forall k | 0 <= k < |rest| ensures ResultOf(p, added, i, rest, after, k) {
      assert ResultOf(p, added, i, flight, collected, k + 1);
      assert collected + (k + 1) == collected + 1 + k;
    }
  }

  lemma AddedLast<T, U>(p: Setup<T, U>, l: Lane<T, U>, x: T)
    ensures MustWaitFull(l.input, p.maxIn) ==> InFlight(p, l.(input := Insert(l.input, p.maxIn, x))) == InFlight(p, l)
    ensures !MustWaitFull(l.input, p.maxIn) ==>
              InFlight(p, l.(input := Insert(l.input, p.maxIn, x))) == InFlight(p, l) + [p.work(x)]
  {
    assert Map(p.work, l.input.items + [x]) == Map(p.work, l.input.items) + [p.work(x)];
  }

  lemma TakeKeepsFlight<T, U>(p: Setup<T, U>, l: Lane<T, U>)
    requires l.held.None? && (MustWaitEmpty(l.input) || |l.input.items| > 0)
    ensures InFlight(p, TakeStep(p, l)) == InFlight(p, l)
  {
    if !MustWaitEmpty(l.input) {
      assert Map(p.work, l.input.items) == [p.work(l.input.items[0])] + Map(p.work, l.input.items[1..]);
    }
  }

  lemma PutKeepsFlight<T, U>(p: Setup<T, U>, l: Lane<T, U>)
    requires l.held.Some?
    ensures InFlight(p, PutStep(p, l)) == InFlight(p, l)
  {
  }

  lemma LaneKeeps<T, U>(p: Setup<T, U>, s: State<T, U>, i: nat, l: Lane<T, U>)
    requires Inv(p, s) && i < p.n && InFlight(p, l) == InFlight(p, s.lanes[i])
    requires ValidQueue(l.input, p.maxIn) && ValidQueue(l.output, p.maxOut)
    ensures Inv(p, s.(lanes := s.lanes[i := l]))
  {
    var s' := s.(lanes := s.lanes[i := l]);
    forall j | 0 <= j < p.n ensures LaneInOrder(p, s', j) {
      assert LaneInOrder(p, s, j);
    }
  }

  lemma CollectKeeps<T, U>(p: Setup<T, U>, s: State<T, U>)
    requires Inv(p, s) && CanRun(p, s, Collect)
    requires MustWaitEmpty(s.lanes[s.collector.lane].output) || |s.lanes[s.collector.lane].output.items| > 0
    ensures Inv(p, CollectStep(p, s))
  {
    var s', i := CollectStep(p, s), s.collector.lane;
    var l := s.lanes[i];
    ExtractKeeps(l.output, p.maxOut);
    TurnAdvances(s.collector, p.n);
    assert LaneInOrder(p, s, i);
    if !MustWaitEmpty(l.output) {
      CollectedFirst(p, l);
      InOrderTail(p, s.added, i, InFlight(p, l), CountAt(s.collector, i), CountAt(s.adder, i));
    }
    forall j | 0 <= j < p.n ensures LaneInOrder(p, s', j) {
      assert LaneInOrder(p, s, j);
    }
  }

  lemma CollectedFirst<T, U>(p: Setup<T, U>, l: Lane<T, U>)
    requires |l.output.items| > 0
    ensures InFlight(p, l) != [] && InFlight(p, l)[0] == l.output.items[0]
    ensures InFlight(p, l.(output := Extract(l.output))) == InFlight(p, l)[1..]
  {
  }

  /** Every step of every thread keeps the invariant. */
  lemma StepKeeps<T, U>(p: Setup<T, U>, s: State<T, U>, a: Action<T>)
    requires Inv(p, s) && CanRun(p, s, a)
    ensures Inv(p, Step(p, s, a))
  {
    match a
    case Add(x) => AddKeeps(p, s, x);
    case Take(i) =>
      ExtractKeeps(s.lanes[i].input, p.maxIn);
      TakeKeepsFlight(p, s.lanes[i]);
      LaneKeeps(p, s, i, TakeStep(p, s.lanes[i]));
    case Put(i) =>
      InsertKeeps(s.lanes[i].output, p.maxOut, s.lanes[i].held.value);
      PutKeepsFlight(p, s.lanes[i]);
      LaneKeeps(p, s, i, PutStep(p, s.lanes[i]));
    case Collect =>
      ExtractKeeps(s.lanes[s.collector.lane].output, p.maxOut);
      CollectKeeps(p, s);
  }

  // ---------------------------------------------------------------- runs

  function EmptyLane<T, U>(): Lane<T, U> {
    Lane(Queue([], Ready, Ready), None, Queue([], Ready, Ready))
  }

  function Start<T, U>(p: Setup<T, U>): State<T, U> {
    State(seq(p.n, _ => EmptyLane()), Turn(0, 0), Turn(0, 0), [], [])
  }

  ghost predicate ValidSetup<T, U>(p: Setup<T, U>) {
    p.n > 0 && p.maxIn > 0 && p.maxOut > 0
  }

  lemma StartValid<T, U>(p: Setup<T, U>)
    requires ValidSetup(p)
    ensures Inv(p, Start(p))
  {
    var s := Start(p);
    forall i | 0 <= i < p.n ensures LaneInOrder(p, s, i) {
      assert InFlight(p, s.lanes[i]) == [];
    }
  }

  /** A run under any schedule: the states it goes through. */
  ghost predicate IsRun<T(!new), U(!new)>(p: Setup<T, U>, states: seq<State<T, U>>) {
    && states != [] && states[0] == Start(p)
    && forall k {:trigger Follows(p, states, k)} :: 0 <= k < |states| - 1 ==> Follows(p, states, k)
  }

  ghost predicate Follows<T(!new), U(!new)>(p: Setup<T, U>, states: seq<State<T, U>>, k: nat)
    requires k + 1 < |states|
  {
    Shape(p, states[k]) && exists a :: CanRun(p, states[k], a) && states[k + 1] == Step(p, states[k], a)
  }

  lemma {:induction false} RunKeeps<T(!new), U(!new)>(p: Setup<T, U>, states: seq<State<T, U>>, k: nat)
    requires ValidSetup(p) && IsRun(p, states) && k < |states|
    ensures Inv(p, states[k])
  {
    if k == 0 {
      StartValid(p);
    } else {
      RunKeeps(p, states, k - 1);
      assert Follows(p, states, k - 1);
      var a :| CanRun(p, states[k - 1], a) && states[k] == Step(p, states[k - 1], a);
      StepKeeps(p, states[k - 1], a);
    }
  }

  /** Under every schedule the collector receives the processed items in the order they were added. */
  lemma OrderIsKept<T(!new), U(!new)>(p: Setup<T, U>, states: seq<State<T, U>>, k: nat)
    requires ValidSetup(p) && IsRun(p, states) && k < |states|
    ensures SameOrder(p.work, states[k].added, states[k].received)
  {
    RunKeeps(p, states, k);
  }

  // ---------------------------------------------------------------- progress

  /** The step moves an item, rather than making the thread wait. */
  predicate Moves<T, U>(p: Setup<T, U>, s: State<T, U>, a: Action<T>)
    requires |s.lanes| == p.n && s.adder.lane < p.n && s.collector.lane < p.n && CanRun(p, s, a)
  {
    match a
    case Add(_) => !MustWaitFull(s.lanes[s.adder.lane].input, p.maxIn)
    case Take(i) => !MustWaitEmpty(s.lanes[i].input)
    case Put(i) => !MustWaitFull(s.lanes[i].output, p.maxOut)
    case Collect => !MustWaitEmpty(s.lanes[s.collector.lane].output)
  }

  /** No schedule gets stuck: while items are on their way, a worker or the collector can move
      one; when none is, the adder can. */
  lemma NeverStuck<T, U>(p: Setup<T, U>, s: State<T, U>, x: T) returns (a: Action<T>)
    requires Inv(p, s)
    ensures CanRun(p, s, a) && Moves(p, s, a)
    ensures |s.received| < |s.added| ==> !a.Add?
    ensures |s.received| == |s.added| ==> a == Add(x)
  {
    if |s.received| < |s.added| {
      var i := s.collector.lane;
      var l := s.lanes[i];
      assert LaneInOrder(p, s, i);
      StillToCome(p.n, s.adder, s.collector);
      if l.output.items != [] {
        a := Collect;
      } else if l.held.Some? {
        a := Put(i);
      } else {
        assert |InFlight(p, l)| == |l.input.items|;
        a := Take(i);
      }
    } else {
      var i := s.adder.lane;
      assert LaneInOrder(p, s, i);
      NoneToCome(p.n, s.adder, s.collector);
      assert |InFlight(p, s.lanes[i])| == 0;
      a := Add(x);
    }
  }

  /** If more was dealt than collected, then also in the collector's next lane. */
  lemma StillToCome(n: nat, adder: Turn, collector: Turn)
    requires adder.lane < n && collector.lane < n
    requires Index(n, collector.lane, collector.round) < Index(n, adder.lane, adder.round)
    ensures CountAt(collector, collector.lane) < CountAt(adder, collector.lane)
  {
    if collector.round > adder.round { RoundsOrder(n, adder, collector); }
  }

  lemma RoundsOrder(n: nat, a: Turn, b: Turn)
    requires a.lane < n && b.lane < n && a.round < b.round
    ensures Index(n, a.lane, a.round) < Index(n, b.lane, b.round)
  {
    var d := b.round - a.round - 1;
    assert b.round * n == a.round * n + n + d * n;
  }

  lemma NoneToCome(n: nat, adder: Turn, collector: Turn)
    requires adder.lane < n && collector.lane < n
    requires Index(n, collector.lane, collector.round) == Index(n, adder.lane, adder.round)
    ensures collector == adder
  {
    if collector.round > adder.round {
      RoundsOrder(n, adder, collector);
    } else if collector.round < adder.round {
      RoundsOrder(n, collector, adder);
    }
  }

  // ---------------------------------------------------------------- every schedule delivers

  /** The pipeline together with the items that the adder has yet to add. */
  datatype Program<T, U> = Program(state: State<T, U>, todo: seq<T>)

  predicate Runnable<T(==), U>(p: Setup<T, U>, g: Program<T, U>, a: Action<T>)
    requires |g.state.lanes| == p.n && g.state.adder.lane < p.n && g.state.collector.lane < p.n
  {
    CanRun(p, g.state, a) && (a.Add? ==> g.todo != [] && a.item == g.todo[0])
  }

  function Advance<T, U>(p: Setup<T, U>, g: Program<T, U>, a: Action<T>): Program<T, U>
    requires Shape(p, g.state) && Runnable(p, g, a)
  {
    Program(Step(p, g.state, a), if a.Add? && Moves(p, g.state, a) then g.todo[1..] else g.todo)
  }

  ghost predicate ValidProgram<T, U>(p: Setup<T, U>, items: seq<T>, g: Program<T, U>) {
    Inv(p, g.state) && g.state.added + g.todo == items
  }

  lemma AdvanceKeeps<T, U>(p: Setup<T, U>, items: seq<T>, g: Program<T, U>, a: Action<T>)
    requires ValidProgram(p, items, g) && Runnable(p, g, a)
    ensures ValidProgram(p, items, Advance(p, g, a))
  {
    StepKeeps(p, g.state, a);
    if a.Add? && Moves(p, g.state, a) {
      assert g.todo == [g.todo[0]] + g.todo[1..];
    }
  }

  /** The moves that the items in a lane still have before them. */
  function MovesLeft<T, U>(l: Lane<T, U>): nat {
    3 * |l.input.items| + 2 * |Held(l.held)| + |l.output.items|
  }

  function Awake(w: Wait): nat {
    if w.Waiting? then 0 else 1
  }

  /** How many of the four places at which a thread may wait in a lane are not waited at. */
  function AwakeAt<T, U>(l: Lane<T, U>): nat {
    Awake(l.input.producer) + Awake(l.input.consumer) + Awake(l.output.producer) + Awake(l.output.consumer)
  }

  function AllMovesLeft<T, U>(lanes: seq<Lane<T, U>>, n: nat): nat
    requires n <= |lanes|
  {
    if n == 0 then 0 else AllMovesLeft(lanes, n - 1) + MovesLeft(lanes[n - 1])
  }

  function AllAwake<T, U>(lanes: seq<Lane<T, U>>, n: nat): (r: nat)
    requires n <= |lanes|
    ensures r <= 4 * n
  {
    if n == 0 then 0 else AllAwake(lanes, n - 1) + AwakeAt(lanes[n - 1])
  }

  lemma {:induction false} OneLaneChanges<T, U>(lanes: seq<Lane<T, U>>, i: nat, l: Lane<T, U>, n: nat)
    requires i < |lanes| && n <= |lanes|
    ensures AllMovesLeft(lanes[i := l], n) ==
            AllMovesLeft(lanes, n) + if i < n then MovesLeft(l) - MovesLeft(lanes[i]) else 0
    ensures AllAwake(lanes[i := l], n) == AllAwake(lanes, n) + if i < n then AwakeAt(l) - AwakeAt(lanes[i]) else 0
  {
    if n > 0 { OneLaneChanges(lanes, i, l, n - 1); }
  }

  /** The moves left until everything has been received. */
  function Left<T, U>(g: Program<T, U>): nat {
    4 * |g.todo| + AllMovesLeft(g.state.lanes, |g.state.lanes|)
  }

  function ThreadsAwake<T, U>(g: Program<T, U>): nat {
    AllAwake(g.state.lanes, |g.state.lanes|)
  }

  /** The lane that a step is about. */
  function LaneOf<T, U>(s: State<T, U>, a: Action<T>): nat {
    match a
    case Add(_) => s.adder.lane
    case Take(i) => i
    case Put(i) => i
    case Collect => s.collector.lane
  }

  /** What a step does to its lane: a move brings the end nearer, any other step puts a thread to sleep. */
  lemma LaneStep<T, U>(p: Setup<T, U>, s: State<T, U>, a: Action<T>) returns (l: Lane<T, U>)
    requires Inv(p, s) && CanRun(p, s, a)
    ensures LaneOf(s, a) < p.n && Step(p, s, a).lanes == s.lanes[LaneOf(s, a) := l]
    ensures var before := s.lanes[LaneOf(s, a)];
            if !Moves(p, s, a) then MovesLeft(l) == MovesLeft(before) && AwakeAt(l) < AwakeAt(before)
            else if a.Add? then MovesLeft(l) == MovesLeft(before) + 3
            else MovesLeft(l) < MovesLeft(before)
  {
    var before := s.lanes[LaneOf(s, a)];
    match a {
      case Add(x) =>
        InsertKeeps(before.input, p.maxIn, x);
        l := before.(input := Insert(before.input, p.maxIn, x));
      case Take(i) =>
        ExtractKeeps(before.input, p.maxIn);
        l := TakeStep(p, before);
      case Put(i) =>
        InsertKeeps(before.output, p.maxOut, before.held.value);
        l := PutStep(p, before);
      case Collect =>
        ExtractKeeps(before.output, p.maxOut);
        l := before.(output := Extract(before.output));
    }
  }

  /** Every step of any thread brings the end nearer. */
  lemma StepsRunOut<T, U>(p: Setup<T, U>, g: Program<T, U>, a: Action<T>)
    requires Inv(p, g.state) && Runnable(p, g, a)
    ensures var g' := Advance(p, g, a);
            |g'.state.lanes| == p.n
            && if Moves(p, g.state, a) then Left(g') < Left(g)
               else Left(g') == Left(g) && ThreadsAwake(g') < ThreadsAwake(g)
  {
    var l := LaneStep(p, g.state, a);
    OneLaneChanges(g.state.lanes, LaneOf(g.state, a), l, p.n);
  }

  /** A bound on the number of steps to come. */
  function StepsLeft<T, U>(p: Setup<T, U>, g: Program<T, U>): int
    requires |g.state.lanes| == p.n
  {
    Left(g) * (4 * p.n + 1) + ThreadsAwake(g)
  }

  lemma StepsLeftDecrease<T, U>(p: Setup<T, U>, g: Program<T, U>, a: Action<T>)
    requires Inv(p, g.state) && Runnable(p, g, a)
    ensures |Advance(p, g, a).state.lanes| == p.n && StepsLeft(p, Advance(p, g, a)) < StepsLeft(p, g)
  {
    StepsRunOut(p, g, a);
    var g' := Advance(p, g, a);
    if Left(g') < Left(g) { ScaledOrder(Left(g'), Left(g), 4 * p.n + 1); }
  }

  lemma NotNegative(x: nat, c: nat)
    ensures x * c >= 0
  {
  }

  lemma ScaledOrder(x: nat, y: nat, c: nat)
    requires x < y
    ensures x * c + c <= y * c
  {
    var d := y - x - 1;
    assert y * c == x * c + c + d * c;
  }

  /** A run under any schedule that adds the items. */
  ghost predicate IsSchedule<T(!new), U(!new)>(p: Setup<T, U>, items: seq<T>, run: seq<Program<T, U>>) {
    && run != [] && run[0] == Program(Start(p), items)
    && forall k {:trigger GoesOn(p, run, k)} :: 0 <= k < |run| - 1 ==> GoesOn(p, run, k)
  }

  ghost predicate GoesOn<T(!new), U(!new)>(p: Setup<T, U>, run: seq<Program<T, U>>, k: nat)
    requires k + 1 < |run|
  {
    Shape(p, run[k].state) && exists a :: Runnable(p, run[k], a) && run[k + 1] == Advance(p, run[k], a)
  }

  lemma {:induction false} ScheduleKeeps<T(!new), U(!new)>(p: Setup<T, U>, items: seq<T>, run: seq<Program<T, U>>,
                                                           k: nat)
    requires ValidSetup(p) && IsSchedule(p, items, run) && k < |run|
    ensures ValidProgram(p, items, run[k])
    ensures k + StepsLeft(p, run[k]) <= StepsLeft(p, run[0])
  {
    if k == 0 {
      StartValid(p);
      assert [] + items == items;
    } else {
      ScheduleKeeps(p, items, run, k - 1);
      assert GoesOn(p, run, k - 1);
      var a :| Runnable(p, run[k - 1], a) && run[k] == Advance(p, run[k - 1], a);
      AdvanceKeeps(p, items, run[k - 1], a);
      StepsLeftDecrease(p, run[k - 1], a);
    }
  }

  /** No schedule goes on for ever. */
  lemma EveryScheduleEnds<T(!new), U(!new)>(p: Setup<T, U>, items: seq<T>, run: seq<Program<T, U>>)
    requires ValidSetup(p) && IsSchedule(p, items, run)
    ensures |run| <= 1 + StepsLeft(p, Program(Start(p), items))
  {
    ScheduleKeeps(p, items, run, |run| - 1);
    NotNegative(Left(run[|run| - 1]), 4 * p.n + 1);
  }

  /** When a schedule cannot go on, everything has been received, in order. */
  lemma EveryScheduleDelivers<T(!new), U(!new)>(p: Setup<T, U>, items: seq<T>, run: seq<Program<T, U>>)
    requires ValidSetup(p) && IsSchedule(p, items, run)
    requires var g := run[|run| - 1]; Shape(p, g.state) ==> forall a {:trigger Runnable(p, g, a)} :: !Runnable(p, g, a)
    ensures run[|run| - 1].state.received == Map(p.work, items)
  {
    ScheduleKeeps(p, items, run, |run| - 1);
    var g := run[|run| - 1];
    var s := g.state;
    if |s.received| < |s.added| {
      var a := NeverStuck(p, s, s.added[0]);
      assert Runnable(p, g, a);
    } else if g.todo != [] {
      var a := NeverStuck(p, s, g.todo[0]);
      assert Runnable(p, g, a);
    }
    assert s.added == items;
  }

  // ---------------------------------------------------------------- writing the secrets to a file

  type byte = b: int | 0 <= b < 256

  function Concat(parts: seq<seq<byte>>): seq<byte> {
    if parts == [] then [] else Concat(parts[..|parts| - 1]) + parts[|parts| - 1]
  }

  /** The decoder's collector: gather the secrets in a write buffer of fixed size and write it
      out when the next secret does not fit, and after the last. */
  method WriteSecrets(secrets: seq<seq<byte>>, buffer: array<byte>) returns (file: seq<byte>)
    requires |secrets| > 0 && forall k :: 0 <= k < |secrets| ==> |secrets[k]| <= buffer.Length
    modifies buffer
    ensures file == Concat(secrets)
  {
    file := [];
    var outIndex := 0;
    for count := 0 to |secrets|
      invariant 0 <= outIndex <= buffer.Length
      invariant file + buffer[..outIndex] == Concat(secrets[..count])
    {
      var secret := secrets[count];
      if outIndex + |secret| > buffer.Length {
        file := file + buffer[..outIndex];
        outIndex := 0;
      }
      ghost var written := file + buffer[..outIndex];
      ghost var before := buffer[..outIndex];
      CopyInto(buffer, outIndex, secret);
      outIndex := outIndex + |secret|;
      assert buffer[..outIndex] == before + secret;
      assert secrets[..count + 1][..count] == secrets[..count];
    }
    assert secrets[..|secrets|] == secrets;
    if outIndex > 0 {
      file := file + buffer[..outIndex];
    }
  }

  /** The file of a pipeline that has delivered everything: its results one after the other, in the
      order in which the items were added. */
  method WriteCollected<T>(p: Setup<T, seq<byte>>, s: State<T, seq<byte>>, buffer: array<byte>)
    returns (file: seq<byte>)
    requires Inv(p, s) && |s.received| == |s.added| > 0
    requires forall k {:trigger s.received[k]} :: 0 <= k < |s.received| ==> |s.received[k]| <= buffer.Length
    modifies buffer
    ensures file == Concat(Map(p.work, s.added))
  {
    assert s.received == Map(p.work, s.added);
    file := WriteSecrets(s.received, buffer);
  }

  method CopyInto(buffer: array<byte>, at: nat, data: seq<byte>)
    requires at + |data| <= buffer.Length
    modifies buffer
    ensures buffer[..at] == old(buffer[..at]) && buffer[at..at + |data|] == data
  {
    for i := 0 to |data|
      invariant buffer[..at] == old(buffer[..at]) && buffer[at..at + i] == data[..i]
    {
      buffer[at + i] := data[i];
    }
  }
}
