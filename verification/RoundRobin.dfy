/** Round-robin scheduling of processes with arrival times, simulated to completion. */
module RoundRobin {
  import Pigeonhole
  import opened RoundRobinPolicy
  import opened Sequences

  // ----- Invariant -----

  /** The simulation's variables. */
  datatype Sim = Sim(procs: seq<Process>, queue: seq<int>, inQueue: seq<bool>, time: int, completed: int)

  ghost predicate ProcOk(ps: seq<Process>, s: Sim, trace: seq<Event>, i: int)
    requires |ps| == |s.procs| == |s.inQueue| && 0 <= i < |ps|
  {
    var p := s.procs[i];
    && p == ps[i].(remaining := ps[i].burst - Served(trace, i), firstRun := FirstStart(trace, i),
                   completion := p.completion)
    && 0 <= Served(trace, i) <= ps[i].burst
    && (if s.inQueue[i] then ps[i].arrival <= s.time else ps[i].arrival > s.time && Served(trace, i) == 0)
    && (i in s.queue <==> s.inQueue[i] && p.remaining > 0)
    && (p.remaining == 0 ==> p.completion == LastEnd(trace, i, ps[i].arrival))
    && (if Served(trace, i) == 0 then LastEnd(trace, i, ps[i].arrival) == ps[i].arrival && FirstStart(trace, i) == -1
        else FirstStart(trace, i) >= 0)
  }

  ghost function DoneSet(procs: seq<Process>): set<int> {
    set i | i in Pigeonhole.Range(|procs|) && procs[i].remaining == 0
  }

  ghost predicate QueueOk(n: nat, queue: seq<int>) {
    Distinct(queue) && InRange(n, queue)
  }

  ghost predicate ProcsOk(ps: seq<Process>, s: Sim, trace: seq<Event>)
    requires |ps| == |s.procs| == |s.inQueue|
  {
    forall i {:trigger ProcOk(ps, s, trace, i)} :: 0 <= i < |ps| ==> ProcOk(ps, s, trace, i)
  }

  ghost predicate InLine(ps: seq<Process>, trace: seq<Event>, queue: seq<int>, a: int, b: int)
    requires 0 <= a < |queue| && 0 <= b < |queue| && InRange(|ps|, queue)
  {
    Earlier(ps, trace, queue[a], queue[b])
  }

  /** The queue is the line the policy prescribes. */
  ghost predicate InOrder(ps: seq<Process>, trace: seq<Event>, queue: seq<int>)
    requires InRange(|ps|, queue)
  {
    forall a, b {:trigger InLine(ps, trace, queue, a, b)} ::
      0 <= a < b < |queue| ==> InLine(ps, trace, queue, a, b)
  }

  ghost predicate Inv(ps: seq<Process>, q: int, s: Sim, trace: seq<Event>) {
    && |ps| == |s.procs| == |s.inQueue| && q > 0 && AllFresh(ps) && Sorted(ps)
    && s.time == Elapsed(trace) >= 0 && Schedule(ps, q, trace)
    && QueueOk(|ps|, s.queue) && s.completed == |DoneSet(s.procs)|
    && ProcsOk(ps, s, trace) && InOrder(ps, trace, s.queue)
  }

  // ----- Arrivals -----

  ghost predicate Ascending(s: seq<int>) {
    forall a, b :: 0 <= a < b < |s| ==> s[a] < s[b]
  }

  predicate Arrives(procs: seq<Process>, inQueue: seq<bool>, time: int, i: int)
    requires |procs| == |inQueue| && 0 <= i < |procs|
  {
    !inQueue[i] && procs[i].arrival <= time && procs[i].remaining > 0
  }

  /** The processes below k that now enter the queue, in order. */
  ghost function Arrivals(procs: seq<Process>, inQueue: seq<bool>, time: int, k: nat): (r: seq<int>)
    requires |procs| == |inQueue| && k <= |procs|
    ensures forall i :: i in r <==> 0 <= i < k && Arrives(procs, inQueue, time, i)
    ensures Ascending(r)
  {
    if k == 0 then []
    else
      var r := Arrivals(procs, inQueue, time, k - 1);
      if Arrives(procs, inQueue, time, k - 1) then
        assert forall a :: 0 <= a < |r| ==> r[a] in r;
        r + [k - 1]
      else r
  }

  ghost function Admitted(procs: seq<Process>, inQueue: seq<bool>, time: int): seq<bool>
    requires |procs| == |inQueue|
  {
    seq(|procs|, i requires 0 <= i < |procs| => inQueue[i] || Arrives(procs, inQueue, time, i))
  }

  method Admit(procs: seq<Process>, queue: seq<int>, inQueue: seq<bool>, time: int)
    returns (queue': seq<int>, inQueue': seq<bool>)
    requires |procs| == |inQueue|
    ensures queue' == queue + Arrivals(procs, inQueue, time, |procs|)
    ensures inQueue' == Admitted(procs, inQueue, time)
  {
    queue', inQueue' := queue, inQueue;
    for i := 0 to |procs|
      invariant |inQueue'| == |procs| && queue' == queue + Arrivals(procs, inQueue, time, i)
      invariant forall j :: 0 <= j < |procs| ==>
                  inQueue'[j] == (inQueue[j] || (j < i && Arrives(procs, inQueue, time, j)))
    {
      if !inQueue'[i] && procs[i].arrival <= time && procs[i].remaining > 0 {
        queue' := queue' + [i];
        inQueue' := inQueue'[i := true];
      }
    }
  }

  // ----- Steps -----

  ghost predicate Ready(s: Sim) {
    |s.procs| == |s.inQueue| && s.queue != [] && 0 <= s.queue[0] < |s.procs|
  }

  /** The turn of the process at the front: the quantum, or what it still needs. */
  ghost function TurnOf(s: Sim, q: int): Event
    requires Ready(s)
  {
    var left := s.procs[s.queue[0]].remaining;
    Turn(s.queue[0], s.time, if q < left then q else left)
  }

  ghost function RunProc(p: Process, start: int, len: int): Process {
    p.(firstRun := if p.firstRun < 0 then start else p.firstRun, remaining := p.remaining - len)
  }

  /** The processes once the turn is over, completion time not yet noted. */
  ghost function RunProcs(s: Sim, q: int): seq<Process>
    requires Ready(s)
  {
    s.procs[s.queue[0] := RunProc(s.procs[s.queue[0]], s.time, TurnOf(s, q).len)]
  }

  ghost function TurnArrivals(s: Sim, q: int): seq<int>
    requires Ready(s)
  {
    Arrivals(RunProcs(s, q), s.inQueue, s.time + TurnOf(s, q).len, |s.procs|)
  }

  /** One turn of the process at the front. */
  ghost function AfterTurn(s: Sim, q: int): Sim
    requires Ready(s)
  {
    var idx := s.queue[0];
    var time := s.time + TurnOf(s, q).len;
    var procs := RunProcs(s, q);
    var queue := s.queue[1..] + TurnArrivals(s, q);
    var inQueue := Admitted(procs, s.inQueue, time);
    if procs[idx].remaining == 0 then
      Sim(procs[idx := procs[idx].(completion := time)], queue, inQueue, time, s.completed + 1)
    else Sim(procs, queue + [idx], inQueue, time, s.completed)
  }

  /** One idle tick. */
  ghost function AfterTick(s: Sim): Sim
    requires |s.procs| == |s.inQueue|
  {
    var queue := s.queue + Arrivals(s.procs, s.inQueue, s.time + 1, |s.procs|);
    s.(time := s.time + 1, queue := queue, inQueue := Admitted(s.procs, s.inQueue, s.time + 1))
  }

  /** The process at the front of the queue is the one the policy puts first. */
  lemma TurnAllowed(ps: seq<Process>, q: int, s: Sim, trace: seq<Event>)
    requires Inv(ps, q, s, trace) && s.queue != []
    ensures Ready(s) && Schedule(ps, q, trace + [TurnOf(s, q)])
  {
    var idx := s.queue[0];
    assert idx in s.queue && ProcOk(ps, s, trace, idx);
    forall j | Waiting(ps, trace, j) && j != idx ensures Earlier(ps, trace, idx, j) {
      assert ProcOk(ps, s, trace, j);
      var a :| 0 <= a < |s.queue| && s.queue[a] == j;
      assert InLine(ps, trace, s.queue, 0, a);
    }
    assert (trace + [TurnOf(s, q)])[..|trace|] == trace;
  }

  /** With the queue empty and processes unfinished, the policy has the CPU idle. */
  lemma TickAllowed(ps: seq<Process>, q: int, s: Sim, trace: seq<Event>)
    requires Inv(ps, q, s, trace) && s.queue == [] && s.completed < |ps|
    ensures Schedule(ps, q, trace + [Idle(s.time)])
  {
    forall i ensures !Waiting(ps, trace, i) {
      if 0 <= i < |ps| { assert ProcOk(ps, s, trace, i); }
    }
    var i := Unfinished(ps, q, s, trace);
    assert Served(trace, i) < ps[i].burst;
    assert (trace + [Idle(s.time)])[..|trace|] == trace;
  }

  lemma Unfinished(ps: seq<Process>, q: int, s: Sim, trace: seq<Event>) returns (i: int)
    requires Inv(ps, q, s, trace) && s.completed < |ps|
    ensures 0 <= i < |ps| && s.procs[i].remaining > 0 && Served(trace, i) < ps[i].burst
  {
    var all, done := Pigeonhole.Range(|ps|), DoneSet(s.procs);
    var unfinished := all - done;
    Pigeonhole.SubsetSize(all * done, done);
    assert |unfinished| + |all * done| == |all|;
    i := Pigeonhole.Member(unfinished);
    assert ProcOk(ps, s, trace, i);
  }

  lemma Joined(n: nat, a: seq<int>, b: seq<int>)
    requires QueueOk(n, a) && QueueOk(n, b) && forall x :: x in b ==> x !in a
    ensures QueueOk(n, a + b) && forall x :: x in a + b <==> x in a || x in b
  {
    var c := a + b;
    forall i, j | 0 <= i < j < |c| ensures c[i] != c[j] {
      if i < |a| <= j { assert c[i] in a && c[j] in b; }
    }
  }

  lemma TailOk(n: nat, queue: seq<int>)
    requires QueueOk(n, queue) && queue != []
    ensures QueueOk(n, queue[1..]) && queue[0] !in queue[1..]
    ensures forall x :: x in queue <==> x == queue[0] || x in queue[1..]
  {
    assert queue == [queue[0]] + queue[1..];
  }

  lemma ArrivalsOk(procs: seq<Process>, inQueue: seq<bool>, time: int)
    requires |procs| == |inQueue|
    ensures QueueOk(|procs|, Arrivals(procs, inQueue, time, |procs|))
  {
    var r := Arrivals(procs, inQueue, time, |procs|);
    assert forall p :: 0 <= p < |r| ==> r[p] in r;
  }

  /** Who is queued after a turn: everyone but the front process, the arrivals, and the front
      process again, in last place, unless it finished. */
  lemma TurnQueue(s: Sim, q: int)
    requires Ready(s) && QueueOk(|s.procs|, s.queue) && forall i :: i in s.queue ==> s.inQueue[i]
    ensures var idx, s', n := s.queue[0], AfterTurn(s, q), |s.procs|;
            && |s'.procs| == |s'.inQueue| == n
            && QueueOk(n, s'.queue) && s.queue[1..] <= s'.queue
            && (forall i :: i in s'.queue <==>
                  || i in s.queue[1..] || i in TurnArrivals(s, q)
                  || (i == idx && s'.procs[idx].remaining != 0))
            && (idx in s'.queue ==> s'.queue[|s'.queue| - 1] == idx)
  {
    var n, idx := |s.procs|, s.queue[0];
    TailOk(n, s.queue);
    ArrivalsOk(RunProcs(s, q), s.inQueue, s.time + TurnOf(s, q).len);
    assert idx in s.queue && idx !in TurnArrivals(s, q);
    Joined(n, s.queue[1..], TurnArrivals(s, q));
    assert QueueOk(n, [idx]);
    Joined(n, s.queue[1..] + TurnArrivals(s, q), [idx]);
  }

  /** Facts about the process at the front. */
  lemma FrontRuns(ps: seq<Process>, q: int, s: Sim, trace: seq<Event>)
    requires Inv(ps, q, s, trace) && s.queue != []
    ensures Ready(s) && ProcOk(ps, s, trace, s.queue[0]) && s.inQueue[s.queue[0]]
    ensures 0 < TurnOf(s, q).len <= q && forall i :: i in s.queue ==> s.inQueue[i]
  {
    assert s.queue[0] in s.queue;
    forall i | i in s.queue ensures s.inQueue[i] {
      assert ProcOk(ps, s, trace, i);
    }
    assert ProcOk(ps, s, trace, s.queue[0]);
  }

  // ----- The queue stays the line -----

  lemma OrderJoin(ps: seq<Process>, trace: seq<Event>, x: seq<int>, y: seq<int>)
    requires InRange(|ps|, x) && InRange(|ps|, y) && InOrder(ps, trace, x) && InOrder(ps, trace, y)
    requires forall i, j :: i in x && j in y ==> Earlier(ps, trace, i, j)
    ensures InRange(|ps|, x + y) && InOrder(ps, trace, x + y)
  {
    var z := x + y;
    forall a, b | 0 <= a < b < |z| ensures InLine(ps, trace, z, a, b) {
      if b < |x| {
        assert InLine(ps, trace, x, a, b);
      } else if a >= |x| {
        assert InLine(ps, trace, y, a - |x|, b - |x|);
      } else {
        assert z[a] in x && z[b] in y;
      }
    }
  }

  /** An event of another process changes nobody's place. */
  lemma OrderKept(ps: seq<Process>, trace: seq<Event>, e: Event, queue: seq<int>)
    requires InRange(|ps|, queue) && InOrder(ps, trace, queue)
    requires e.Turn? ==> e.i !in queue
    ensures InOrder(ps, trace + [e], queue)
  {
    forall a, b | 0 <= a < b < |queue| ensures InLine(ps, trace + [e], queue, a, b) {
      assert InLine(ps, trace, queue, a, b);
      Append(trace, e, queue[a], ps[queue[a]].arrival);
      Append(trace, e, queue[b], ps[queue[b]].arrival);
    }
  }

  /** Not served yet and ready since arrival. */
  ghost predicate IsNew(ps: seq<Process>, trace: seq<Event>, i: int) {
    0 <= i < |ps| && Served(trace, i) == 0 && ReadyAt(ps, trace, i) == ps[i].arrival
  }

  /** Newcomers in index order are in line, the processes being sorted by arrival. */
  lemma NewcomersInOrder(ps: seq<Process>, trace: seq<Event>, queue: seq<int>)
    requires Sorted(ps) && Ascending(queue) && InRange(|ps|, queue)
    requires forall i {:trigger IsNew(ps, trace, i)} :: i in queue ==> IsNew(ps, trace, i)
    ensures InOrder(ps, trace, queue)
  {
    forall a, b | 0 <= a < b < |queue| ensures InLine(ps, trace, queue, a, b) {
      assert IsNew(ps, trace, queue[a]) && IsNew(ps, trace, queue[b]);
    }
  }

  /** Ready no later than the given moment. */
  ghost predicate ReadyBy(ps: seq<Process>, trace: seq<Event>, i: int, time: int) {
    0 <= i < |ps| && ReadyAt(ps, trace, i) <= time
  }

  /** Those queued before a turn stay in line and were ready before it. */
  lemma RestInOrder(ps: seq<Process>, q: int, s: Sim, trace: seq<Event>)
    requires Inv(ps, q, s, trace) && Ready(s)
    ensures var rest, trace' := s.queue[1..], trace + [TurnOf(s, q)];
            && InRange(|ps|, rest) && InOrder(ps, trace', rest)
            && forall i {:trigger ReadyBy(ps, trace', i, s.time)} :: i in rest ==> ReadyBy(ps, trace', i, s.time)
  {
    var rest, e := s.queue[1..], TurnOf(s, q);
    TailOk(|ps|, s.queue);
    forall a, b | 0 <= a < b < |rest| ensures InLine(ps, trace, rest, a, b) {
      assert InLine(ps, trace, s.queue, a + 1, b + 1);
    }
    OrderKept(ps, trace, e, rest);
    forall i | i in rest ensures ReadyBy(ps, trace + [e], i, s.time) {
      assert i in s.queue && ProcOk(ps, s, trace, i);
      Append(trace, e, i, ps[i].arrival);
      ServiceTakesTime(ps, q, trace, i);
    }
  }

  /** Those that arrived during an event come after it began, no later than it ended, in order. */
  lemma ArrivalsInOrder(ps: seq<Process>, s: Sim, procs: seq<Process>, trace: seq<Event>, e: Event, time: int)
    requires |ps| == |s.procs| == |s.inQueue| == |procs| && Sorted(ps) && ProcsOk(ps, s, trace)
    requires forall i :: 0 <= i < |ps| ==> procs[i].arrival == ps[i].arrival
    requires e.Turn? ==> 0 <= e.i < |ps| && s.inQueue[e.i]
    ensures var arrived := Arrivals(procs, s.inQueue, time, |ps|);
            && InRange(|ps|, arrived) && InOrder(ps, trace + [e], arrived)
            && forall i {:trigger IsNew(ps, trace + [e], i)} :: i in arrived ==>
                 IsNew(ps, trace + [e], i) && s.time < ps[i].arrival <= time
  {
    var arrived := Arrivals(procs, s.inQueue, time, |ps|);
    assert forall a :: 0 <= a < |arrived| ==> arrived[a] in arrived;
    forall i | i in arrived ensures IsNew(ps, trace + [e], i) && s.time < ps[i].arrival <= time {
      assert Arrives(procs, s.inQueue, time, i) && ProcOk(ps, s, trace, i);
      Append(trace, e, i, ps[i].arrival);
    }
    NewcomersInOrder(ps, trace + [e], arrived);
  }

  /** Those queued before a turn, then the newcomers. */
  lemma RestThenArrivals(ps: seq<Process>, q: int, s: Sim, trace: seq<Event>)
    requires Inv(ps, q, s, trace) && Ready(s) && s.inQueue[s.queue[0]]
    ensures var line, trace' := s.queue[1..] + TurnArrivals(s, q), trace + [TurnOf(s, q)];
            && InRange(|ps|, line) && InOrder(ps, trace', line)
            && forall i {:trigger BeforeEnd(ps, trace', i, s.time, TurnOf(s, q).len)} ::
                 i in line ==> BeforeEnd(ps, trace', i, s.time, TurnOf(s, q).len)
  {
    var e := TurnOf(s, q);
    var trace', rest, arrived := trace + [e], s.queue[1..], TurnArrivals(s, q);
    forall i | 0 <= i < |ps| ensures RunProcs(s, q)[i].arrival == ps[i].arrival { assert ProcOk(ps, s, trace, i); }
    RestInOrder(ps, q, s, trace);
    ArrivalsInOrder(ps, s, RunProcs(s, q), trace, e, s.time + e.len);
    forall i, j | i in rest && j in arrived ensures Earlier(ps, trace', i, j) {
      assert ReadyBy(ps, trace', i, s.time) && IsNew(ps, trace', j);
    }
    OrderJoin(ps, trace', rest, arrived);
    forall i | i in rest + arrived ensures BeforeEnd(ps, trace', i, s.time, e.len) {
      if i in rest { assert ReadyBy(ps, trace', i, s.time); } else { assert IsNew(ps, trace', i); }
    }
  }

  /** Ready before a turn, or a newcomer during it. */
  ghost predicate BeforeEnd(ps: seq<Process>, trace: seq<Event>, i: int, start: int, len: int) {
    ReadyBy(ps, trace, i, start) || (IsNew(ps, trace, i) && ReadyBy(ps, trace, i, start + len))
  }

  /** After a turn: those queued before, then the newcomers, then the process that ran. */
  lemma TurnOrder(ps: seq<Process>, q: int, s: Sim, trace: seq<Event>)
    requires Inv(ps, q, s, trace) && s.queue != []
    ensures Ready(s)
    ensures var s' := AfterTurn(s, q);
            QueueOk(|ps|, s'.queue) && InOrder(ps, trace + [TurnOf(s, q)], s'.queue)
  {
    FrontRuns(ps, q, s, trace);
    TurnQueue(s, q);
    RestThenArrivals(ps, q, s, trace);
    var e, idx := TurnOf(s, q), s.queue[0];
    var trace', line := trace + [e], s.queue[1..] + TurnArrivals(s, q);
    if AfterTurn(s, q).procs[idx].remaining != 0 {
      Append(trace, e, idx, ps[idx].arrival);
      forall i, j | i in line && j in [idx] ensures Earlier(ps, trace', i, j) {
        assert BeforeEnd(ps, trace', i, s.time, e.len);
      }
      assert InOrder(ps, trace', [idx]);
      OrderJoin(ps, trace', line, [idx]);
    }
  }

  lemma TurnProc(ps: seq<Process>, q: int, s: Sim, trace: seq<Event>, i: int)
    requires |ps| == |s.procs| && AllFresh(ps) && q > 0 && Ready(s) && 0 <= i < |ps| && s.time >= 0
    requires QueueOk(|ps|, s.queue) && ProcOk(ps, s, trace, i) && ProcOk(ps, s, trace, s.queue[0])
    requires 0 < TurnOf(s, q).len <= q && forall i :: i in s.queue ==> s.inQueue[i]
    ensures |ps| == |AfterTurn(s, q).procs| == |AfterTurn(s, q).inQueue|
    ensures ProcOk(ps, AfterTurn(s, q), trace + [TurnOf(s, q)], i)
  {
    TurnQueue(s, q);
    TailOk(|ps|, s.queue);
    Append(trace, TurnOf(s, q), i, ps[i].arrival);
    assert FreshProcess(ps[i]);
  }

  lemma TurnCounts(s: Sim, q: int)
    requires Ready(s) && s.completed == |DoneSet(s.procs)| && s.procs[s.queue[0]].remaining > 0
    ensures AfterTurn(s, q).completed == |DoneSet(AfterTurn(s, q).procs)|
  {
    var idx, s' := s.queue[0], AfterTurn(s, q);
    var done, done' := DoneSet(s.procs), DoneSet(s'.procs);
    forall i ensures i in done' <==> i in done || (i == idx && s'.procs[idx].remaining == 0) {
      assert i != idx && 0 <= i < |s.procs| ==> s'.procs[i] == s.procs[i];
    }
    assert done' == done + if s'.procs[idx].remaining == 0 then {idx} else {};
  }

  lemma TurnKeeps(ps: seq<Process>, q: int, s: Sim, trace: seq<Event>)
    requires Inv(ps, q, s, trace) && s.queue != []
    ensures Ready(s) && Inv(ps, q, AfterTurn(s, q), trace + [TurnOf(s, q)])
  {
    FrontRuns(ps, q, s, trace);
    TurnAllowed(ps, q, s, trace);
    TurnOrder(ps, q, s, trace);
    TurnCounts(s, q);
    Append(trace, TurnOf(s, q), 0, 0);
    forall i | 0 <= i < |ps|
      ensures |ps| == |AfterTurn(s, q).procs| == |AfterTurn(s, q).inQueue|
      ensures ProcOk(ps, AfterTurn(s, q), trace + [TurnOf(s, q)], i)
    {
      assert ProcOk(ps, s, trace, i);
      TurnProc(ps, q, s, trace, i);
    }
    TurnQueue(s, q);
  }

  lemma TickProc(ps: seq<Process>, s: Sim, trace: seq<Event>, i: int)
    requires |ps| == |s.procs| == |s.inQueue| && AllFresh(ps) && 0 <= i < |ps| && s.queue == []
    requires ProcOk(ps, s, trace, i)
    ensures ProcOk(ps, AfterTick(s), trace + [Idle(s.time)], i)
  {
    Append(trace, Idle(s.time), i, ps[i].arrival);
    assert FreshProcess(ps[i]);
  }

  lemma TickOrder(ps: seq<Process>, s: Sim, trace: seq<Event>)
    requires |ps| == |s.procs| == |s.inQueue| && Sorted(ps) && ProcsOk(ps, s, trace) && s.queue == []
    ensures QueueOk(|ps|, AfterTick(s).queue) && InOrder(ps, trace + [Idle(s.time)], AfterTick(s).queue)
  {
    ArrivalsOk(s.procs, s.inQueue, s.time + 1);
    forall i | 0 <= i < |ps| ensures s.procs[i].arrival == ps[i].arrival { assert ProcOk(ps, s, trace, i); }
    ArrivalsInOrder(ps, s, s.procs, trace, Idle(s.time), s.time + 1);
    assert AfterTick(s).queue == Arrivals(s.procs, s.inQueue, s.time + 1, |ps|);
  }

  lemma TickKeeps(ps: seq<Process>, q: int, s: Sim, trace: seq<Event>)
    requires Inv(ps, q, s, trace) && s.queue == [] && s.completed < |ps|
    ensures Inv(ps, q, AfterTick(s), trace + [Idle(s.time)])
  {
    var s', trace' := AfterTick(s), trace + [Idle(s.time)];
    TickAllowed(ps, q, s, trace);
    Append(trace, Idle(s.time), 0, 0);
    forall i | 0 <= i < |ps| ensures ProcOk(ps, s', trace', i) {
      assert ProcOk(ps, s, trace, i);
      TickProc(ps, s, trace, i);
    }
    TickOrder(ps, s, trace);
  }

  // ----- The program -----

  ghost function InsertByArrival(ps: seq<Process>, p: Process): (r: seq<Process>)
    requires Sorted(ps)
    ensures Sorted(r) && multiset(r) == multiset(ps) + multiset{p}
    ensures forall x :: x in r ==> x == p || x in ps
  {
    if ps == [] || ps[|ps| - 1].arrival <= p.arrival then ps + [p]
    else
      var rest, last := ps[..|ps| - 1], ps[|ps| - 1];
      var r := InsertByArrival(rest, p);
      assert ps == rest + [last];
      assert forall a :: 0 <= a < |r| ==> r[a] in r;
      r + [last]
  }

  /** std::sort by arrival: some arrangement in order exists; ties may fall either way. */
  lemma {:induction false} SortExists(ps: seq<Process>) returns (r: seq<Process>)
    ensures multiset(r) == multiset(ps) && Sorted(r)
    decreases |ps|
  {
    if ps == [] {
      r := [];
    } else {
      r := SortExists(ps[..|ps| - 1]);
      r := InsertByArrival(r, ps[|ps| - 1]);
      assert ps == ps[..|ps| - 1] + [ps[|ps| - 1]];
    }
  }

  lemma PermutedFresh(input: seq<Process>, ps: seq<Process>)
    requires multiset(ps) == multiset(input) && AllFresh(input)
    ensures AllFresh(ps)
  {
    forall i | 0 <= i < |ps| ensures FreshProcess(ps[i]) {
      assert ps[i] in multiset(ps);
      assert ps[i] in input;
    }
  }

  ghost function TotalLeft(procs: seq<Process>): int {
    if procs == [] then 0 else TotalLeft(procs[..|procs| - 1]) + procs[|procs| - 1].remaining
  }

  ghost function LastArrival(ps: seq<Process>): (r: int)
    ensures forall i :: 0 <= i < |ps| ==> ps[i].arrival <= r
  {
    if ps == [] then 0
    else
      var r := LastArrival(ps[..|ps| - 1]);
      assert forall i :: 0 <= i < |ps| - 1 ==> ps[i] == ps[..|ps| - 1][i];
      if ps[|ps| - 1].arrival > r then ps[|ps| - 1].arrival else r
  }

  lemma {:induction false} LeftAfter(procs: seq<Process>, i: int, p: Process)
    requires 0 <= i < |procs|
    ensures TotalLeft(procs[i := p]) == TotalLeft(procs) - procs[i].remaining + p.remaining
    decreases |procs|
  {
    var last := |procs| - 1;
    if i < last {
      LeftAfter(procs[..last], i, p);
      assert procs[i := p][..last] == procs[..last][i := p];
    } else {
      assert procs[i := p][..last] == procs[..last];
    }
  }

  lemma {:induction false} LeftNotNegative(procs: seq<Process>)
    requires forall i :: 0 <= i < |procs| ==> procs[i].remaining >= 0
    ensures TotalLeft(procs) >= 0
    decreases |procs|
  {
    if procs != [] { LeftNotNegative(procs[..|procs| - 1]); }
  }

  lemma LeftOk(ps: seq<Process>, q: int, s: Sim, trace: seq<Event>)
    requires Inv(ps, q, s, trace)
    ensures TotalLeft(s.procs) >= 0
    ensures s.queue != [] ==> Ready(s) && TotalLeft(AfterTurn(s, q).procs) < TotalLeft(s.procs)
  {
    forall i | 0 <= i < |ps| ensures s.procs[i].remaining >= 0 { assert ProcOk(ps, s, trace, i); }
    LeftNotNegative(s.procs);
    if s.queue != [] {
      FrontRuns(ps, q, s, trace);
      var idx, procs := s.queue[0], AfterTurn(s, q).procs;
      assert procs == s.procs[idx := procs[idx]];
      LeftAfter(s.procs, idx, procs[idx]);
    }
  }

  /** Somebody unfinished and nobody queued means somebody is still to arrive. */
  lemma StillComing(ps: seq<Process>, q: int, s: Sim, trace: seq<Event>)
    requires Inv(ps, q, s, trace) && s.queue == [] && s.completed < |ps|
    ensures s.time < LastArrival(ps)
  {
    var i := Unfinished(ps, q, s, trace);
    assert ProcOk(ps, s, trace, i);
  }

  lemma AllDone(ps: seq<Process>, q: int, s: Sim, trace: seq<Event>)
    requires Inv(ps, q, s, trace) && s.completed >= |ps|
    ensures forall i :: 0 <= i < |ps| ==> Finished(ps, trace, i, s.procs[i])
  {
    forall i | 0 <= i < |ps| ensures Finished(ps, trace, i, s.procs[i]) {
      assert ProcOk(ps, s, trace, i);
      if i !in DoneSet(s.procs) {
        Pigeonhole.SubsetSize(DoneSet(s.procs), Pigeonhole.Range(|ps|) - {i});
      }
    }
  }

  function Nobody(n: nat): (inQueue: seq<bool>)
    ensures |inQueue| == n && forall i :: 0 <= i < n ==> !inQueue[i]
  {
    seq(n, _ => false)
  }

  method InitialQueue(procs: seq<Process>) returns (queue: seq<int>, inQueue: seq<bool>)
    requires AllFresh(procs)
    ensures queue == Arrivals(procs, Nobody(|procs|), 0, |procs|)
    ensures |inQueue| == |procs| && forall i :: 0 <= i < |procs| ==> inQueue[i] == (procs[i].arrival <= 0)
  {
    queue, inQueue := [], Nobody(|procs|);
    for i := 0 to |procs|
      invariant |inQueue| == |procs| && queue == Arrivals(procs, Nobody(|procs|), 0, i)
      invariant forall j :: 0 <= j < |procs| ==> inQueue[j] == (j < i && procs[j].arrival <= 0)
    {
      assert FreshProcess(procs[i]);
      if procs[i].arrival <= 0 {
        queue := queue + [i];
        inQueue := inQueue[i := true];
      }
    }
  }

  lemma InitialInv(ps: seq<Process>, q: int, queue: seq<int>, inQueue: seq<bool>)
    requires AllFresh(ps) && Sorted(ps) && q > 0 && |inQueue| == |ps|
    requires queue == Arrivals(ps, Nobody(|ps|), 0, |ps|)
    requires forall i :: 0 <= i < |ps| ==> inQueue[i] == (ps[i].arrival <= 0)
    ensures Inv(ps, q, Sim(ps, queue, inQueue, 0, 0), [])
  {
    ArrivalsOk(ps, Nobody(|ps|), 0);
    forall i | 0 <= i < |ps| ensures ProcOk(ps, Sim(ps, queue, inQueue, 0, 0), [], i) { assert FreshProcess(ps[i]); }
    forall i | i in queue ensures IsNew(ps, [], i) { assert FreshProcess(ps[i]); }
    NewcomersInOrder(ps, [], queue);
    assert DoneSet(ps) == {} by {
      forall i | 0 <= i < |ps| ensures ps[i].remaining > 0 { assert FreshProcess(ps[i]); }
    }
  }

  /** The body of the main loop when somebody is queued. */
  method TakeTurn(procs0: seq<Process>, queue0: seq<int>, inQueue0: seq<bool>, time0: int, completed0: int, quantum: int)
    returns (procs: seq<Process>, queue: seq<int>, inQueue: seq<bool>, time: int, completed: int)
    requires Ready(Sim(procs0, queue0, inQueue0, time0, completed0))
    ensures Sim(procs, queue, inQueue, time, completed)
         == AfterTurn(Sim(procs0, queue0, inQueue0, time0, completed0), quantum)
  {
    procs, completed := procs0, completed0;
    var idx := queue0[0];
    queue := queue0[1..];
    if procs[idx].firstRun < 0 {
      procs := procs[idx := procs[idx].(firstRun := time0)];
    }
    var run := if quantum < procs[idx].remaining then quantum else procs[idx].remaining;
    procs := procs[idx := procs[idx].(remaining := procs[idx].remaining - run)];
    time := time0 + run;
    assert procs == RunProcs(Sim(procs0, queue0, inQueue0, time0, completed0), quantum);
    queue, inQueue := Admit(procs, queue, inQueue0, time);
    if procs[idx].remaining == 0 {
      procs := procs[idx := procs[idx].(completion := time)];
      completed := completed + 1;
    } else {
      queue := queue + [idx];
    }
  }

  /** One round of the main loop; it brings the end nearer. */
  method Advance(procs0: seq<Process>, queue0: seq<int>, inQueue0: seq<bool>, time0: int, completed0: int,
                 quantum: int, ghost ps: seq<Process>, ghost trace0: seq<Event>)
    returns (procs: seq<Process>, queue: seq<int>, inQueue: seq<bool>, time: int, completed: int, ghost trace: seq<Event>)
    requires Inv(ps, quantum, Sim(procs0, queue0, inQueue0, time0, completed0), trace0) && completed0 < |procs0|
    ensures Inv(ps, quantum, Sim(procs, queue, inQueue, time, completed), trace)
    ensures if queue0 == [] then procs == procs0 && time0 < time && time0 < LastArrival(ps)
            else 0 <= TotalLeft(procs) < TotalLeft(procs0)
  {
    ghost var s := Sim(procs0, queue0, inQueue0, time0, completed0);
    LeftOk(ps, quantum, s, trace0);
    if |queue0| == 0 {
      StillComing(ps, quantum, s, trace0);
      TickKeeps(ps, quantum, s, trace0);
      procs, time, completed, trace := procs0, time0 + 1, completed0, trace0 + [Idle(time0)];
      queue, inQueue := Admit(procs, queue0, inQueue0, time);
    } else {
      TurnKeeps(ps, quantum, s, trace0);
      procs, queue, inQueue, time, completed := TakeTurn(procs0, queue0, inQueue0, time0, completed0, quantum);
      trace := trace0 + [TurnOf(s, quantum)];
      LeftOk(ps, quantum, AfterTurn(s, quantum), trace);
    }
  }

  method RoundRobin(input: seq<Process>, quantum: int)
    returns (procs: seq<Process>, ghost ps: seq<Process>, ghost trace: seq<Event>)
    requires quantum > 0 && AllFresh(input)
    ensures FromRun(input, quantum, procs, ps, trace)
    ensures IsResult(input, quantum, procs) && |procs| == |input|
    ensures forall i :: 0 <= i < |procs| ==> Bounded(procs[i], |procs|, quantum)
  {
    ghost var sorted := SortExists(input);
    procs :| multiset(procs) == multiset(input) && Sorted(procs);
    PermutedFresh(input, procs);
    ps, trace := procs, [];
    var queue, inQueue := InitialQueue(procs);
    InitialInv(ps, quantum, queue, inQueue);
    var time, completed := 0, 0;
    while completed < |procs|
      invariant Inv(ps, quantum, Sim(procs, queue, inQueue, time, completed), trace)
      decreases TotalLeft(procs), LastArrival(ps) - time
    {
      procs, queue, inQueue, time, completed, trace :=
        Advance(procs, queue, inQueue, time, completed, quantum, ps, trace);
    }
    AllDone(ps, quantum, Sim(procs, queue, inQueue, time, completed), trace);
    RunIsBounded(input, quantum, procs, ps, trace);
  }
}
