/** Round robin as a policy over CPU schedules: what may run next, and what follows from it. */
module RoundRobinPolicy {
  import Pigeonhole
  import opened Sequences

  datatype Process = Process(pid: int, arrival: int, burst: int, priority: int, remaining: int,
                             completion: int, firstRun: int)

  /** What the CPU did: a turn of process i, or one idle tick. */
  datatype Event = Turn(i: int, start: int, len: int) | Idle(at: int)

  predicate Sorted(ps: seq<Process>) {
    forall a, b :: 0 <= a < b < |ps| ==> ps[a].arrival <= ps[b].arrival
  }

  /** What the simulation demands of its input. */
  ghost predicate FreshProcess(p: Process) {
    p.arrival >= 0 && p.burst > 0 && p.remaining == p.burst && p.firstRun == -1
  }

  ghost predicate AllFresh(ps: seq<Process>) {
    forall i :: 0 <= i < |ps| ==> FreshProcess(ps[i])
  }

  // ----- What a trace says -----

  ghost function Elapsed(trace: seq<Event>): int {
    if trace == [] then 0
    else
      var e := trace[|trace| - 1];
      Elapsed(trace[..|trace| - 1]) + (if e.Turn? then e.len else 1)
  }

  /** CPU time process i got. */
  ghost function Served(trace: seq<Event>, i: int): int {
    if trace == [] then 0
    else
      var e := trace[|trace| - 1];
      Served(trace[..|trace| - 1], i) + (if e.Turn? && e.i == i then e.len else 0)
  }

  /** End of the last turn of i; its arrival if it had none. */
  ghost function LastEnd(trace: seq<Event>, i: int, arrival: int): int {
    if trace == [] then arrival
    else
      var e := trace[|trace| - 1];
      if e.Turn? && e.i == i then e.start + e.len else LastEnd(trace[..|trace| - 1], i, arrival)
  }

  /** Start of the first turn of i; -1 if it had none. */
  ghost function FirstStart(trace: seq<Event>, i: int): int {
    if trace == [] then -1
    else
      var before := FirstStart(trace[..|trace| - 1], i);
      var e := trace[|trace| - 1];
      if before < 0 && e.Turn? && e.i == i then e.start else before
  }

  lemma Append(trace: seq<Event>, e: Event, i: int, arrival: int)
    ensures Elapsed(trace + [e]) == Elapsed(trace) + (if e.Turn? then e.len else 1)
    ensures var mine := e.Turn? && e.i == i;
            && Served(trace + [e], i) == Served(trace, i) + (if mine then e.len else 0)
            && LastEnd(trace + [e], i, arrival) == (if mine then e.start + e.len else LastEnd(trace, i, arrival))
            && FirstStart(trace + [e], i)
               == (if FirstStart(trace, i) < 0 && mine then e.start else FirstStart(trace, i))
  {
    assert (trace + [e])[..|trace + [e]| - 1] == trace;
  }

  // ----- The policy -----

  /** When i last became ready: on arrival, or when its last turn ended. */
  ghost function ReadyAt(ps: seq<Process>, trace: seq<Event>, i: int): int
    requires 0 <= i < |ps|
  {
    LastEnd(trace, i, ps[i].arrival)
  }

  ghost predicate Waiting(ps: seq<Process>, trace: seq<Event>, i: int) {
    0 <= i < |ps| && ps[i].arrival <= Elapsed(trace) && Served(trace, i) < ps[i].burst
  }

  /** First ready, first served; at the same moment newcomers go before a process whose turn
      just ended, and among themselves in index order. */
  ghost predicate Earlier(ps: seq<Process>, trace: seq<Event>, i: int, j: int)
    requires 0 <= i < |ps| && 0 <= j < |ps|
  {
    var ri, rj := ReadyAt(ps, trace, i), ReadyAt(ps, trace, j);
    var newI, newJ := Served(trace, i) == 0, Served(trace, j) == 0;
    ri < rj || (ri == rj && if newI == newJ then i < j else newI)
  }

  ghost predicate FirstInLine(ps: seq<Process>, trace: seq<Event>, i: int) {
    && Waiting(ps, trace, i)
    && forall j {:trigger Waiting(ps, trace, j)} :: Waiting(ps, trace, j) && j != i ==> Earlier(ps, trace, i, j)
  }

  /** What happens after `before`: the process first in line runs for the quantum or what is
      left of its burst; the CPU idles when nobody waits and somebody is still to come. */
  ghost predicate EventOk(ps: seq<Process>, q: int, before: seq<Event>, e: Event) {
    match e
    case Idle(at) =>
      && at == Elapsed(before)
      && (forall i {:trigger Waiting(ps, before, i)} :: !Waiting(ps, before, i))
      && exists i :: 0 <= i < |ps| && Served(before, i) < ps[i].burst
    case Turn(i, start, len) =>
      && FirstInLine(ps, before, i) && start == Elapsed(before)
      && len == if q < ps[i].burst - Served(before, i) then q else ps[i].burst - Served(before, i)
  }

  ghost predicate Schedule(ps: seq<Process>, q: int, trace: seq<Event>) {
    trace == []
    || (Schedule(ps, q, trace[..|trace| - 1]) && EventOk(ps, q, trace[..|trace| - 1], trace[|trace| - 1]))
  }

  ghost predicate AllServed(ps: seq<Process>, trace: seq<Event>) {
    forall i :: 0 <= i < |ps| ==> Served(trace, i) == ps[i].burst
  }

  lemma {:induction false} EventAt(ps: seq<Process>, q: int, trace: seq<Event>, k: nat)
    requires Schedule(ps, q, trace) && k < |trace|
    ensures EventOk(ps, q, trace[..k], trace[k])
    decreases |trace|
  {
    if k < |trace| - 1 {
      EventAt(ps, q, trace[..|trace| - 1], k);
      assert trace[..|trace| - 1][..k] == trace[..k];
    }
  }

  lemma {:induction false} PrefixSchedule(ps: seq<Process>, q: int, trace: seq<Event>, k: nat)
    requires Schedule(ps, q, trace) && k <= |trace|
    ensures Schedule(ps, q, trace[..k])
    decreases |trace|
  {
    if k < |trace| {
      PrefixSchedule(ps, q, trace[..|trace| - 1], k);
      assert trace[..|trace| - 1][..k] == trace[..k];
    } else {
      assert trace[..k] == trace;
    }
  }

  // ----- The policy leaves no choice -----

  /** At most one event may happen next. */
  lemma EventUnique(ps: seq<Process>, q: int, before: seq<Event>, e: Event, e': Event)
    requires EventOk(ps, q, before, e) && EventOk(ps, q, before, e')
    ensures e == e'
  {
    assert e.Turn? ==> Waiting(ps, before, e.i);
    assert e'.Turn? ==> Waiting(ps, before, e'.i);
  }

  lemma {:induction false} SamePrefix(ps: seq<Process>, q: int, t: seq<Event>, t': seq<Event>, k: nat)
    requires Schedule(ps, q, t) && Schedule(ps, q, t') && k <= |t| && k <= |t'|
    ensures t[..k] == t'[..k]
  {
    if k > 0 {
      SamePrefix(ps, q, t, t', k - 1);
      EventAt(ps, q, t, k - 1);
      EventAt(ps, q, t', k - 1);
      EventUnique(ps, q, t[..k - 1], t[k - 1], t'[k - 1]);
      assert t[..k] == t[..k - 1] + [t[k - 1]] && t'[..k] == t'[..k - 1] + [t'[k - 1]];
    }
  }

  /** Nothing happens once everybody is served. */
  lemma NothingMore(ps: seq<Process>, q: int, trace: seq<Event>, k: nat)
    requires Schedule(ps, q, trace) && k <= |trace| && AllServed(ps, trace[..k])
    ensures k == |trace|
  {
    if k < |trace| { EventAt(ps, q, trace, k); }
  }

  /** The processes, in order, and the quantum determine the whole schedule. */
  lemma TraceUnique(ps: seq<Process>, q: int, t: seq<Event>, t': seq<Event>)
    requires Schedule(ps, q, t) && AllServed(ps, t) && Schedule(ps, q, t') && AllServed(ps, t')
    ensures t == t'
  {
    var k := if |t| < |t'| then |t| else |t'|;
    SamePrefix(ps, q, t, t', k);
    assert t[..|t|] == t && t'[..|t'|] == t';
    NothingMore(ps, q, t, k);
    NothingMore(ps, q, t', k);
  }

  // ----- Service -----

  /** Service never exceeds the burst, starts after arrival, and takes its own time. */
  lemma {:induction false} ServiceTakesTime(ps: seq<Process>, q: int, trace: seq<Event>, i: int)
    requires q > 0 && Schedule(ps, q, trace) && 0 <= i < |ps| && AllFresh(ps)
    ensures 0 <= Served(trace, i) <= ps[i].burst && Elapsed(trace) >= 0
    ensures Served(trace, i) == 0 ==> ReadyAt(ps, trace, i) == ps[i].arrival && FirstStart(trace, i) == -1
    ensures Served(trace, i) > 0 ==> ReadyAt(ps, trace, i) <= Elapsed(trace)
    ensures ps[i].arrival + Served(trace, i) <= ReadyAt(ps, trace, i)
    decreases |trace|
  {
    assert FreshProcess(ps[i]);
    if trace != [] {
      var before, e := trace[..|trace| - 1], trace[|trace| - 1];
      ServiceTakesTime(ps, q, before, i);
      if e.Turn? && e.i != i { ServiceTakesTime(ps, q, before, e.i); }
    }
  }

  /** Turnaround is at least the burst. */
  lemma TurnaroundCoversBurst(ps: seq<Process>, q: int, trace: seq<Event>, i: int, p: Process)
    requires q > 0 && Schedule(ps, q, trace) && 0 <= i < |ps| && AllFresh(ps) && Finished(ps, trace, i, p)
    ensures p.completion - p.arrival >= p.burst
  {
    ServiceTakesTime(ps, q, trace, i);
  }

  // ----- Bounded wait -----

  ghost predicate TurnBy(e: Event, i: int) {
    e.Turn? && e.i == i
  }

  /** k turns of length q. */
  ghost function Turns(k: int, q: int): int
    decreases k
  {
    if k <= 0 then 0 else Turns(k - 1, q) + q
  }

  lemma {:induction false} TurnsGrow(j: int, k: int, q: int)
    requires q > 0 && j <= k
    ensures Turns(j, q) <= Turns(k, q) && 0 <= Turns(j, q)
    decreases if k < 0 then 0 else k, if j < 0 then 0 else j
  {
    if k > 0 {
      if j < k { TurnsGrow(j, k - 1, q); } else { TurnsGrow(j - 1, k - 1, q); }
    }
  }

  lemma {:induction false} TurnsIsProduct(k: nat, q: int)
    ensures Turns(k, q) == k * q
  {
    if k > 0 { TurnsIsProduct(k - 1, q); }
  }

  /** Process j has ended a turn since i became ready. */
  ghost predicate RanSince(ps: seq<Process>, trace: seq<Event>, i: int, j: int) {
    && 0 <= i < |ps| && 0 <= j < |ps| && j != i
    && Served(trace, j) > 0 && ReadyAt(ps, trace, j) > ReadyAt(ps, trace, i)
  }

  ghost function Passed(ps: seq<Process>, trace: seq<Event>, i: int): set<int> {
    set j | j in Pigeonhole.Range(|ps|) && RanSince(ps, trace, i, j)
  }

  /** Whoever ran since i became ready is behind it in line, so does not run again first. */
  lemma OncePassed(ps: seq<Process>, trace: seq<Event>, i: int, k: int)
    requires FirstInLine(ps, trace, k) && Waiting(ps, trace, i) && k != i
    ensures !RanSince(ps, trace, i, k)
  {
  }

  lemma RanSinceTurn(ps: seq<Process>, before: seq<Event>, e: Event, i: int, j: int)
    requires 0 <= i < |ps| && 0 <= j < |ps| && e.Turn? && e.i != i
    requires Served(before, e.i) >= 0 && e.len > 0 && e.start + e.len > ReadyAt(ps, before, i)
    ensures RanSince(ps, before + [e], i, j) <==> j == e.i || RanSince(ps, before, i, j)
  {
    Append(before, e, i, ps[i].arrival);
    Append(before, e, j, ps[j].arrival);
  }

  /** A turn of another process adds that process to those that passed i. */
  lemma PassedBy(ps: seq<Process>, before: seq<Event>, e: Event, i: int)
    requires 0 <= i < |ps| && e.Turn? && 0 <= e.i < |ps| && e.i != i && !RanSince(ps, before, i, e.i)
    requires Served(before, e.i) >= 0 && e.len > 0 && e.start + e.len > ReadyAt(ps, before, i)
    ensures |Passed(ps, before + [e], i)| == |Passed(ps, before, i)| + 1
  {
    var p, p' := Passed(ps, before, i), Passed(ps, before + [e], i);
    forall j ensures j in p' <==> j in p || j == e.i {
      if 0 <= j < |ps| { RanSinceTurn(ps, before, e, i, j); }
    }
    assert p' == p + {e.i} && e.i !in p;
  }

  /** A process that arrives during a turn has waited for part of that turn only. */
  lemma NewcomerWaits(ps: seq<Process>, q: int, before: seq<Event>, e: Event, i: int)
    requires q > 0 && 0 <= i < |ps| && e.Turn? && 0 <= e.i < |ps| && e.i != i && 0 < e.len <= q
    requires e.start == Elapsed(before) < ps[i].arrival < Elapsed(before) + e.len
    requires ReadyAt(ps, before, i) == ps[i].arrival
    requires Served(before, e.i) >= 0 && (Served(before, e.i) > 0 ==> ReadyAt(ps, before, e.i) <= Elapsed(before))
    ensures Elapsed(before) + e.len - ps[i].arrival <= Turns(|Passed(ps, before + [e], i)|, q)
  {
    PassedBy(ps, before, e, i);
    TurnsGrow(1, |Passed(ps, before + [e], i)|, q);
    assert Turns(1, q) == Turns(0, q) + q;
  }

  /** A waiting process has waited no longer than a quantum for each process that passed it. */
  lemma {:induction false} WaitInTurns(ps: seq<Process>, q: int, trace: seq<Event>, i: int)
    requires q > 0 && Schedule(ps, q, trace) && AllFresh(ps) && Waiting(ps, trace, i)
    ensures Elapsed(trace) - ReadyAt(ps, trace, i) <= Turns(|Passed(ps, trace, i)|, q)
    decreases |trace|
  {
    assert FreshProcess(ps[i]);
    TurnsGrow(0, |Passed(ps, trace, i)|, q);
    if trace != [] {
      var before, e := trace[..|trace| - 1], trace[|trace| - 1];
      assert trace == before + [e];
      Append(before, e, i, ps[i].arrival);
      ServiceTakesTime(ps, q, before, i);
      if !TurnBy(e, i) {
        if e.Turn? { ServiceTakesTime(ps, q, before, e.i); }
        if Waiting(ps, before, i) {
          WaitInTurns(ps, q, before, i);
          OncePassed(ps, before, i, e.i);
          PassedBy(ps, before, e, i);
        } else if Elapsed(trace) > ps[i].arrival {
          NewcomerWaits(ps, q, before, e, i);
        }
      }
    }
  }

  /** So it has waited at most n - 1 quanta. */
  lemma WaitBound(ps: seq<Process>, q: int, trace: seq<Event>, i: int)
    requires q > 0 && Schedule(ps, q, trace) && AllFresh(ps) && Waiting(ps, trace, i)
    ensures Elapsed(trace) - ReadyAt(ps, trace, i) <= Turns(|ps| - 1, q)
  {
    WaitInTurns(ps, q, trace, i);
    var passed, others := Passed(ps, trace, i), Pigeonhole.Range(|ps|) - {i};
    Pigeonhole.SubsetSize(passed, others);
    TurnsGrow(|passed|, |ps| - 1, q);
  }

  /** The events after the last turn of i. */
  ghost function Since(trace: seq<Event>, i: int): seq<Event> {
    if trace == [] then []
    else
      var e := trace[|trace| - 1];
      if e.Turn? && e.i == i then [] else Since(trace[..|trace| - 1], i) + [e]
  }

  /** Only turns, each of a different process and none of i. */
  ghost predicate OnceEach(events: seq<Event>, i: int) {
    && (forall a :: 0 <= a < |events| ==> events[a].Turn? && events[a].i != i)
    && (forall a, b :: 0 <= a < b < |events| ==> events[a].i != events[b].i)
  }

  /** Since the last turn of a waiting process, others took turns, each at most one. */
  lemma {:induction false} SinceIsFair(ps: seq<Process>, q: int, trace: seq<Event>, i: int)
    requires q > 0 && Schedule(ps, q, trace) && AllFresh(ps) && Waiting(ps, trace, i) && Served(trace, i) > 0
    ensures OnceEach(Since(trace, i), i)
    ensures forall a :: 0 <= a < |Since(trace, i)| ==> RanSince(ps, trace, i, Since(trace, i)[a].i)
    decreases |trace|
  {
    var before, e := trace[..|trace| - 1], trace[|trace| - 1];
    assert trace == before + [e];
    ServiceTakesTime(ps, q, before, i);
    Append(before, e, i, ps[i].arrival);
    if !(e.Turn? && e.i == i) {
      assert Waiting(ps, before, i);
      SinceIsFair(ps, q, before, i);
      ServiceTakesTime(ps, q, before, e.i);
      OncePassed(ps, before, i, e.i);
      Append(before, e, e.i, ps[e.i].arrival);
      var since := Since(before, i);
      assert Since(trace, i) == since + [e];
      forall a | 0 <= a < |since + [e]| ensures RanSince(ps, trace, i, (since + [e])[a].i) {
        if a < |since| { Append(before, e, since[a].i, ps[since[a].i].arrival); }
      }
    }
  }

  /** What the trace says about i after its turn at a, when that was its last. */
  lemma {:induction false} AfterLastTurn(ps: seq<Process>, q: int, trace: seq<Event>, i: int, a: nat)
    requires q > 0 && Schedule(ps, q, trace) && AllFresh(ps) && 0 <= i < |ps| && a < |trace| && TurnBy(trace[a], i)
    requires forall c :: a < c < |trace| ==> !TurnBy(trace[c], i)
    ensures Since(trace, i) == trace[a + 1..]
    ensures ReadyAt(ps, trace, i) == trace[a].start + trace[a].len
    ensures Served(trace, i) > 0
    decreases |trace|
  {
    var before := trace[..|trace| - 1];
    ServiceTakesTime(ps, q, before, i);
    if a < |before| {
      assert before[a] == trace[a] && forall c :: a < c < |before| ==> before[c] == trace[c];
      AfterLastTurn(ps, q, before, i, a);
      assert !TurnBy(trace[|trace| - 1], i);
      assert trace[a + 1..] == before[a + 1..] + [trace[|trace| - 1]];
    }
  }

  /** Bounded wait: between two turns of a process the CPU does not idle, every other process
      runs at most once, and no more than n - 1 quanta pass. */
  lemma BoundedWait(ps: seq<Process>, q: int, trace: seq<Event>, i: int, a: nat, b: nat)
    requires q > 0 && Schedule(ps, q, trace) && AllFresh(ps)
    requires a < b < |trace| && TurnBy(trace[a], i) && TurnBy(trace[b], i)
    requires forall c :: a < c < b ==> !TurnBy(trace[c], i)
    ensures OnceEach(trace[a + 1..b], i)
    ensures trace[b].start - (trace[a].start + trace[a].len) <= (|ps| - 1) * q
  {
    var before := trace[..b];
    EventAt(ps, q, trace, b);
    PrefixSchedule(ps, q, trace, b);
    AfterLastTurn(ps, q, before, i, a);
    SinceIsFair(ps, q, before, i);
    WaitBound(ps, q, before, i);
    assert before[a + 1..] == trace[a + 1..b];
    TurnsIsProduct(|ps| - 1, q);
  }

  /** Bounded response: the first turn starts at most n - 1 quanta after arrival. */
  lemma {:induction false} BoundedResponse(ps: seq<Process>, q: int, trace: seq<Event>, i: int)
    requires q > 0 && Schedule(ps, q, trace) && 0 <= i < |ps| && AllFresh(ps) && Served(trace, i) > 0
    ensures 0 <= FirstStart(trace, i) - ps[i].arrival <= (|ps| - 1) * q
    decreases |trace|
  {
    var before, e := trace[..|trace| - 1], trace[|trace| - 1];
    ServiceTakesTime(ps, q, before, i);
    assert FreshProcess(ps[i]);
    if Served(before, i) > 0 {
      BoundedResponse(ps, q, before, i);
    } else {
      WaitBound(ps, q, before, i);
      TurnsIsProduct(|ps| - 1, q);
    }
  }

  ghost function TurnCount(trace: seq<Event>, i: int): nat {
    if trace == [] then 0
    else
      var e := trace[|trace| - 1];
      TurnCount(trace[..|trace| - 1], i) + (if e.Turn? && e.i == i then 1 else 0)
  }

  /** All turns but the last are full quanta, and before each at most n - 1 quanta pass. */
  lemma {:induction false} ServiceInTurns(ps: seq<Process>, q: int, trace: seq<Event>, i: int)
    requires q > 0 && Schedule(ps, q, trace) && 0 <= i < |ps| && AllFresh(ps)
    ensures var k, served := TurnCount(trace, i), Served(trace, i);
            && (served < ps[i].burst ==> served == Turns(k, q))
            && (k > 0 ==> Turns(k - 1, q) < served) && served <= Turns(k, q)
            && ReadyAt(ps, trace, i) - ps[i].arrival <= served + Turns(k, Turns(|ps| - 1, q))
    decreases |trace|
  {
    if trace != [] {
      var before, e := trace[..|trace| - 1], trace[|trace| - 1];
      ServiceInTurns(ps, q, before, i);
      ServiceTakesTime(ps, q, before, i);
      if TurnBy(e, i) { WaitBound(ps, q, before, i); }
    }
  }

  // ----- Results -----

  /** p, with the bookkeeping of its whole schedule filled in. */
  ghost predicate Finished(ps: seq<Process>, trace: seq<Event>, i: int, p: Process)
    requires 0 <= i < |ps|
  {
    && Served(trace, i) == ps[i].burst
    && p == ps[i].(remaining := 0, completion := ReadyAt(ps, trace, i), firstRun := FirstStart(trace, i))
  }

  /** A finished process against its burst, the number n of processes and the quantum: the
      response is at most n - 1 quanta, and so is the wait before each of its ceil(burst / q)
      turns. */
  ghost predicate Bounded(p: Process, n: int, q: int) {
    && p.remaining == 0 && 0 <= p.firstRun - p.arrival <= (n - 1) * q
    && p.burst <= p.completion - p.arrival
    && exists k :: WaitsPerTurn(p, n, q, k)
  }

  ghost predicate WaitsPerTurn(p: Process, n: int, q: int, k: int) {
    k >= 1 && (k - 1) * q < p.burst <= k * q && p.completion - p.arrival <= p.burst + k * ((n - 1) * q)
  }

  lemma FinishedIsBounded(ps: seq<Process>, q: int, trace: seq<Event>, i: int, p: Process)
    requires q > 0 && Schedule(ps, q, trace) && 0 <= i < |ps| && AllFresh(ps) && Finished(ps, trace, i, p)
    ensures Bounded(p, |ps|, q)
  {
    assert FreshProcess(ps[i]);
    BoundedResponse(ps, q, trace, i);
    TurnaroundCoversBurst(ps, q, trace, i, p);
    ServiceInTurns(ps, q, trace, i);
    var k := TurnCount(trace, i);
    TurnsIsProduct(k, q);
    TurnsIsProduct(|ps| - 1, q);
    TurnsIsProduct(k, (|ps| - 1) * q);
    if k > 0 { TurnsIsProduct(k - 1, q); }
    assert WaitsPerTurn(p, |ps|, q, k);
  }

  /** procs is what the policy leaves of the input arranged, by arrival, as ps. */
  ghost predicate FromRun(input: seq<Process>, q: int, procs: seq<Process>, ps: seq<Process>, trace: seq<Event>) {
    && multiset(ps) == multiset(input) && Sorted(ps) && Schedule(ps, q, trace)
    && |procs| == |ps| && forall i :: 0 <= i < |ps| ==> Finished(ps, trace, i, procs[i])
  }

  ghost predicate IsResult(input: seq<Process>, q: int, procs: seq<Process>) {
    exists ps, trace :: FromRun(input, q, procs, ps, trace)
  }

  /** The arrangement by arrival determines the schedule and the result. */
  lemma ResultUnique(input: seq<Process>, q: int, ps: seq<Process>,
                     procs: seq<Process>, trace: seq<Event>, procs': seq<Process>, trace': seq<Event>)
    requires FromRun(input, q, procs, ps, trace) && FromRun(input, q, procs', ps, trace')
    ensures trace == trace' && procs == procs'
  {
    forall i | 0 <= i < |ps| ensures Served(trace, i) == Served(trace', i) == ps[i].burst {
      assert Finished(ps, trace, i, procs[i]) && Finished(ps, trace', i, procs'[i]);
    }
    TraceUnique(ps, q, trace, trace');
  }

  lemma RunIsBounded(input: seq<Process>, q: int, procs: seq<Process>, ps: seq<Process>, trace: seq<Event>)
    requires q > 0 && AllFresh(ps) && FromRun(input, q, procs, ps, trace)
    ensures IsResult(input, q, procs) && |procs| == |input|
    ensures forall i :: 0 <= i < |procs| ==> Bounded(procs[i], |procs|, q)
  {
    assert |multiset(ps)| == |ps| && |multiset(input)| == |input|;
    forall i | 0 <= i < |procs| ensures Bounded(procs[i], |procs|, q) {
      FinishedIsBounded(ps, q, trace, i, procs[i]);
    }
  }

  // ----- Time is conserved -----

  ghost function IdleTicks(trace: seq<Event>): nat {
    if trace == [] then 0
    else IdleTicks(trace[..|trace| - 1]) + (if trace[|trace| - 1].Idle? then 1 else 0)
  }

  ghost function ServedBelow(trace: seq<Event>, n: nat): int {
    if n == 0 then 0 else ServedBelow(trace, n - 1) + Served(trace, n - 1)
  }

  ghost function TotalBurst(ps: seq<Process>): int {
    if ps == [] then 0 else TotalBurst(ps[..|ps| - 1]) + ps[|ps| - 1].burst
  }

  lemma {:induction false} OneMoreEvent(trace: seq<Event>, n: nat)
    requires trace != []
    ensures var e := trace[|trace| - 1];
            ServedBelow(trace, n) == ServedBelow(trace[..|trace| - 1], n) + (if e.Turn? && 0 <= e.i < n then e.len else 0)
  {
    if n > 0 { OneMoreEvent(trace, n - 1); }
  }

  lemma {:induction false} NothingServed(n: nat)
    ensures ServedBelow([], n) == 0
  {
    if n > 0 { NothingServed(n - 1); }
  }

  lemma {:induction false} TimeIsServiceOrIdle(ps: seq<Process>, q: int, trace: seq<Event>)
    requires Schedule(ps, q, trace)
    ensures Elapsed(trace) == ServedBelow(trace, |ps|) + IdleTicks(trace)
    decreases |trace|
  {
    if trace == [] {
      NothingServed(|ps|);
    } else {
      TimeIsServiceOrIdle(ps, q, trace[..|trace| - 1]);
      OneMoreEvent(trace, |ps|);
    }
  }

  lemma {:induction false} ServedIsBurst(ps: seq<Process>, trace: seq<Event>, n: nat)
    requires n <= |ps| && AllServed(ps, trace)
    ensures ServedBelow(trace, n) == TotalBurst(ps[..n])
  {
    if n > 0 {
      ServedIsBurst(ps, trace, n - 1);
      assert ps[..n][..n - 1] == ps[..n - 1];
    }
  }

  /** Time is conserved: when all are served, the clock shows all bursts plus the idle ticks. */
  lemma TimeConserved(ps: seq<Process>, q: int, trace: seq<Event>)
    requires Schedule(ps, q, trace) && AllServed(ps, trace)
    ensures Elapsed(trace) == TotalBurst(ps) + IdleTicks(trace)
  {
    TimeIsServiceOrIdle(ps, q, trace);
    ServedIsBurst(ps, trace, |ps|);
    assert ps[..|ps|] == ps;
  }
}
