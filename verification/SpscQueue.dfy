/** Single-producer single-consumer ring buffer: every interleaving of the atomic steps. */
module SpscQueue {
  import opened BitMask
  import opened Modulo

  /** Where the producer thread is inside push, with the values it has loaded. */
  datatype Producer<T> =
    | Outside
    | LoadedTail(item: T, tail: nat)
    | FoundRoom(item: T, tail: nat)
    | Wrote(item: T, tail: nat)

  /** Where the consumer thread is inside pop. */
  datatype Consumer<T> =
    | Away
    | LoadedHead(head: nat)
    | FoundItem(head: nat)
    | Read(head: nat, item: T)

  /** Shared memory, both threads, and the items pushed and popped so far. */
  datatype State<T> = State(head: nat, tail: nat, buffer: seq<T>, producer: Producer<T>, consumer: Consumer<T>,
                            pushed: seq<T>, popped: seq<T>)

  datatype Event<T> =
    | PushStart(item: T)  // load tail
    | PushCheck           // load head, compare
    | PushWrite           // write the slot
    | PushPublish         // store tail
    | PopStart            // load head
    | PopCheck            // load tail, compare
    | PopRead             // read the slot
    | PopPublish          // store head

  /** The compile-time assertion on the capacity. */
  predicate CapacityOk(cap: nat) {
    cap > 0 && And(cap, cap - 1) == 0
  }

  function Next(cap: nat, i: nat): nat
    requires cap > 0
  {
    And(i + 1, cap - 1)
  }

  ghost function Init<T>(buffer: seq<T>): State<T> {
    State(0, 0, buffer, Outside, Away, [], [])
  }

  /** One atomic step; an event its thread is not ready for does nothing. */
  ghost function Step<T>(cap: nat, s: State<T>, e: Event<T>): State<T>
    requires cap > 0 && |s.buffer| == cap
  {
    match e
    case PushStart(item) => if s.producer.Outside? then s.(producer := LoadedTail(item, s.tail)) else s
    case PushCheck =>
      if !s.producer.LoadedTail? then s
      else if Next(cap, s.producer.tail) == s.head then s.(producer := Outside)
      else s.(producer := FoundRoom(s.producer.item, s.producer.tail))
    case PushWrite =>
      if s.producer.FoundRoom? && s.producer.tail < cap then
        s.(buffer := s.buffer[s.producer.tail := s.producer.item], producer := Wrote(s.producer.item, s.producer.tail))
      else s
    case PushPublish =>
      if s.producer.Wrote? then
        s.(tail := Next(cap, s.producer.tail), producer := Outside, pushed := s.pushed + [s.producer.item])
      else s
    case PopStart => if s.consumer.Away? then s.(consumer := LoadedHead(s.head)) else s
    case PopCheck =>
      if !s.consumer.LoadedHead? then s
      else if s.consumer.head == s.tail then s.(consumer := Away)
      else s.(consumer := FoundItem(s.consumer.head))
    case PopRead =>
      if s.consumer.FoundItem? && s.consumer.head < cap then
        s.(consumer := Read(s.consumer.head, s.buffer[s.consumer.head]))
      else s
    case PopPublish =>
      if s.consumer.Read? then
        s.(head := Next(cap, s.consumer.head), consumer := Away, popped := s.popped + [s.consumer.item])
      else s
  }

  ghost predicate Sized<T>(cap: nat, s: State<T>) {
    cap > 0 && |s.buffer| == cap
  }

  ghost function Run<T>(cap: nat, buffer: seq<T>, es: seq<Event<T>>): (s: State<T>)
    requires cap > 0 && |buffer| == cap
    ensures |s.buffer| == cap
  {
    if es == [] then Init(buffer) else Step(cap, Run(cap, buffer, es[..|es| - 1]), es[|es| - 1])
  }

  // ----- Safety -----

  /** Items pushed and not yet popped, oldest first: the abstract queue. */
  ghost function InFlight<T>(s: State<T>): seq<T>
    requires |s.popped| <= |s.pushed|
  {
    s.pushed[|s.popped|..]
  }

  /** The i-th pushed item, while in flight, is in slot i modulo the capacity. */
  ghost predicate SlotHolds<T>(cap: nat, s: State<T>, i: nat)
    requires Sized(cap, s) && i < |s.pushed|
  {
    s.buffer[i % cap] == s.pushed[i]
  }

  ghost predicate Inv<T>(cap: nat, s: State<T>) {
    && Sized(cap, s)
    && |s.popped| <= |s.pushed| && s.popped == s.pushed[..|s.popped|]
    && |s.pushed| - |s.popped| <= cap - 1
    && s.head == |s.popped| % cap && s.tail == |s.pushed| % cap
    && (forall i {:trigger SlotHolds(cap, s, i)} :: |s.popped| <= i < |s.pushed| ==> SlotHolds(cap, s, i))
    && (match s.producer
        case Outside => true
        case LoadedTail(item, tail) => tail == s.tail
        case FoundRoom(item, tail) => tail == s.tail && |s.pushed| - |s.popped| <= cap - 2
        case Wrote(item, tail) =>
          tail == s.tail && |s.pushed| - |s.popped| <= cap - 2 && s.buffer[tail] == item)
    && (match s.consumer
        case Away => true
        case LoadedHead(head) => head == s.head
        case FoundItem(head) => head == s.head && |s.popped| < |s.pushed|
        case Read(head, item) => head == s.head && |s.popped| < |s.pushed| && item == s.pushed[|s.popped|])
  }

  lemma NextIsSuccessor(cap: nat, i: nat)
    requires CapacityOk(cap)
    ensures Next(cap, i % cap) == (i + 1) % cap
  {
    MaskIsModulo(cap, i % cap + 1);
    ModAdd(i, 1, cap);
  }

  /** Head and tail coincide exactly when nothing is in flight, and next-tail meets head
      exactly when capacity - 1 items are. */
  lemma FullAndEmpty<T>(cap: nat, s: State<T>)
    requires CapacityOk(cap) && Inv(cap, s)
    ensures s.head == s.tail <==> |s.pushed| == |s.popped|
    ensures Next(cap, s.tail) == s.head <==> |s.pushed| - |s.popped| == cap - 1
  {
    var x, y := |s.popped|, |s.pushed|;
    NextIsSuccessor(cap, y);
    if x < y { ModApart(x, y, cap); }
    if y + 1 < x + cap { ModApart(x, y + 1, cap); } else { ModShift(x, cap); }
  }

  lemma WriteKeepsSlots<T>(cap: nat, s: State<T>)
    requires Inv(cap, s) && s.producer.FoundRoom?
    ensures Inv(cap, Step(cap, s, PushWrite))
  {
    var s' := Step(cap, s, PushWrite);
    forall i | |s.popped| <= i < |s.pushed| ensures SlotHolds(cap, s', i) {
      assert SlotHolds(cap, s, i);
      ModApart(i, |s.pushed|, cap);
    }
  }

  lemma PublishKeepsSlots<T>(cap: nat, s: State<T>)
    requires CapacityOk(cap) && Inv(cap, s) && s.producer.Wrote?
    ensures Inv(cap, Step(cap, s, PushPublish))
  {
    var s' := Step(cap, s, PushPublish);
    NextIsSuccessor(cap, |s.pushed|);
    forall i | |s.popped| <= i < |s'.pushed| ensures SlotHolds(cap, s', i) {
      if i < |s.pushed| { assert SlotHolds(cap, s, i); }
    }
    assert s'.pushed[..|s.popped|] == s.pushed[..|s.popped|];
  }

  lemma ConsumeKeeps<T>(cap: nat, s: State<T>)
    requires CapacityOk(cap) && Inv(cap, s) && s.consumer.Read?
    ensures Inv(cap, Step(cap, s, PopPublish))
  {
    var s' := Step(cap, s, PopPublish);
    NextIsSuccessor(cap, |s.popped|);
    forall i | |s'.popped| <= i < |s.pushed| ensures SlotHolds(cap, s', i) {
      assert SlotHolds(cap, s, i);
    }
  }

  lemma ReadIsOldest<T>(cap: nat, s: State<T>)
    requires Inv(cap, s) && s.consumer.FoundItem?
    ensures Inv(cap, Step(cap, s, PopRead))
  {
    var s' := Step(cap, s, PopRead);
    assert SlotHolds(cap, s, |s.popped|);
    forall i | |s.popped| <= i < |s.pushed| ensures SlotHolds(cap, s', i) {
      assert SlotHolds(cap, s, i);
    }
  }

  lemma SlotsUnchanged<T>(cap: nat, s: State<T>, s': State<T>)
    requires Inv(cap, s) && s'.buffer == s.buffer && s'.pushed == s.pushed && s'.popped == s.popped
    ensures forall i :: |s.popped| <= i < |s.pushed| ==> SlotHolds(cap, s', i)
  {
    forall i | |s.popped| <= i < |s.pushed| ensures SlotHolds(cap, s', i) {
      assert SlotHolds(cap, s, i);
    }
  }

  lemma StepKeeps<T>(cap: nat, s: State<T>, e: Event<T>)
    requires CapacityOk(cap) && Inv(cap, s)
    ensures Inv(cap, Step(cap, s, e))
  {
    FullAndEmpty(cap, s);
    if e.PushWrite? && s.producer.FoundRoom? {
      WriteKeepsSlots(cap, s);
    } else if e.PushPublish? && s.producer.Wrote? {
      PublishKeepsSlots(cap, s);
    } else if e.PopRead? && s.consumer.FoundItem? {
      ReadIsOldest(cap, s);
    } else if e.PopPublish? && s.consumer.Read? {
      ConsumeKeeps(cap, s);
    } else {
      SlotsUnchanged(cap, s, Step(cap, s, e));
    }
  }

  lemma {:induction false} RunKeeps<T>(cap: nat, buffer: seq<T>, es: seq<Event<T>>)
    requires CapacityOk(cap) && |buffer| == cap
    ensures Inv(cap, Run(cap, buffer, es))
  {
    if es != [] {
      var before := es[..|es| - 1];
      RunKeeps(cap, buffer, before);
      StepKeeps(cap, Run(cap, buffer, before), es[|es| - 1]);
    }
  }

  /** Over every interleaving: what was pushed is what was popped followed by what is in
      flight, at most capacity - 1 items, and they sit in the slots from head on. */
  lemma Safety<T>(cap: nat, buffer: seq<T>, es: seq<Event<T>>)
    requires CapacityOk(cap) && |buffer| == cap
    ensures var s := Run(cap, buffer, es);
            && |s.popped| <= |s.pushed|
            && s.pushed == s.popped + InFlight(s)
            && |InFlight(s)| <= cap - 1
            && (forall k :: 0 <= k < |InFlight(s)| ==> s.buffer[(s.head + k) % cap] == InFlight(s)[k])
  {
    RunKeeps(cap, buffer, es);
    SlotsFromHead(cap, Run(cap, buffer, es));
  }

  lemma SlotsFromHead<T>(cap: nat, s: State<T>)
    requires Inv(cap, s)
    ensures forall k :: 0 <= k < |InFlight(s)| ==> s.buffer[(s.head + k) % cap] == InFlight(s)[k]
  {
    forall k | 0 <= k < |InFlight(s)| ensures s.buffer[(s.head + k) % cap] == InFlight(s)[k] {
      assert SlotHolds(cap, s, |s.popped| + k);
      ModAdd(|s.popped|, k, cap);
    }
  }

  /** Each thread moves on exactly at its own events, whatever the other is doing; only the checks
      can go two ways, and they depend on how much is in flight at that moment. */
  lemma ThreadsAdvance<T>(cap: nat, s: State<T>, e: Event<T>)
    requires CapacityOk(cap) && Inv(cap, s)
    ensures var s', p, c, n := Step(cap, s, e), s.producer, s.consumer, |InFlight(s)|;
            match e
            case PushStart(x) => s'.consumer == c && if p.Outside? then s'.producer == LoadedTail(x, s.tail) else s' == s
            case PushCheck => s'.consumer == c && if p.LoadedTail? && n == cap - 1 then s'.producer == Outside
                                                  else if p.LoadedTail? then s'.producer == FoundRoom(p.item, s.tail)
                                                  else s' == s
            case PushWrite => s'.consumer == c && if p.FoundRoom? then s'.producer == Wrote(p.item, s.tail)
                                                                       && s'.buffer == s.buffer[s.tail := p.item]
                                                  else s' == s
            case PushPublish => s'.consumer == c && if p.Wrote? then s'.producer == Outside && s'.tail == (s.tail + 1) % cap
                                                    else s' == s
            case PopStart => s'.producer == p && if c.Away? then s'.consumer == LoadedHead(s.head) else s' == s
            case PopCheck => s'.producer == p && if c.LoadedHead? && n == 0 then s'.consumer == Away
                                                 else if c.LoadedHead? then s'.consumer == FoundItem(s.head)
                                                 else s' == s
            case PopRead => s'.producer == p && if c.FoundItem? then s'.consumer == Read(s.head, InFlight(s)[0])
                                                else s' == s
            case PopPublish => s'.producer == p && if c.Read? then s'.consumer == Away && s'.head == (s.head + 1) % cap
                                                   else s' == s
  {
    FullAndEmpty(cap, s);
    NextIsSuccessor(cap, |s.pushed|);
    NextIsSuccessor(cap, |s.popped|);
    ModAdd(|s.pushed|, 1, cap);
    ModAdd(|s.popped|, 1, cap);
    if e.PopRead? && s.consumer.FoundItem? { assert SlotHolds(cap, s, |s.popped|); }
  }

  // ----- Which items are pushed, from the events alone -----

  /** What the push in progress, or the last one, was called with. */
  datatype Call<T> = NoCall | Call(argument: T)

  /** A push starts when its thread is outside; an event that comes at another time is no call. */
  ghost function LastCall<T>(cap: nat, buffer: seq<T>, es: seq<Event<T>>): Call<T>
    requires cap > 0 && |buffer| == cap
    decreases |es|
  {
    if es == [] then NoCall
    else
      var earlier, e := es[..|es| - 1], es[|es| - 1];
      if e.PushStart? && Run(cap, buffer, earlier).producer.Outside? then Call(e.item)
      else LastCall(cap, buffer, earlier)
  }

  /** The arguments of the pushes that got as far as storing tail, in order. */
  ghost function Published<T>(cap: nat, buffer: seq<T>, es: seq<Event<T>>): seq<Call<T>>
    requires cap > 0 && |buffer| == cap
    decreases |es|
  {
    if es == [] then []
    else
      var earlier, e := es[..|es| - 1], es[|es| - 1];
      Published(cap, buffer, earlier)
      + if e.PushPublish? && Run(cap, buffer, earlier).producer.Wrote? then [LastCall(cap, buffer, earlier)] else []
  }

  /** The item in hand is the argument, from the start of a push through check and write. */
  lemma {:induction false} ItemIsArgument<T>(cap: nat, buffer: seq<T>, es: seq<Event<T>>)
    requires cap > 0 && |buffer| == cap
    ensures var p := Run(cap, buffer, es).producer;
            !p.Outside? ==> LastCall(cap, buffer, es) == Call(p.item)
    decreases |es|
  {
    if es != [] { ItemIsArgument(cap, buffer, es[..|es| - 1]); }
  }

  /** Over every interleaving, what has been pushed is, in order, what the completed pushes were
      called with. */
  lemma {:induction false} PushedAreArguments<T>(cap: nat, buffer: seq<T>, es: seq<Event<T>>)
    requires cap > 0 && |buffer| == cap
    ensures var pushed, calls := Run(cap, buffer, es).pushed, Published(cap, buffer, es);
            |pushed| == |calls| && forall i :: 0 <= i < |pushed| ==> calls[i] == Call(pushed[i])
    decreases |es|
  {
    if es != [] {
      PushedAreArguments(cap, buffer, es[..|es| - 1]);
      ItemIsArgument(cap, buffer, es[..|es| - 1]);
    }
  }

  /** So the consumer receives, in order, the arguments of the completed pushes and nothing else. */
  lemma ReceivedAreArguments<T>(cap: nat, buffer: seq<T>, es: seq<Event<T>>)
    requires CapacityOk(cap) && |buffer| == cap
    ensures var popped, calls := Run(cap, buffer, es).popped, Published(cap, buffer, es);
            |popped| <= |calls| && forall i :: 0 <= i < |popped| ==> calls[i] == Call(popped[i])
  {
    RunKeeps(cap, buffer, es);
    PushedAreArguments(cap, buffer, es);
  }

  /** The slot the producer is about to write is never the slot the consumer is about to read,
      however old the indices they compared. */
  lemma NoConflict<T>(cap: nat, buffer: seq<T>, es: seq<Event<T>>)
    requires CapacityOk(cap) && |buffer| == cap
    ensures var s := Run(cap, buffer, es);
            s.producer.FoundRoom? && s.consumer.FoundItem? ==> s.producer.tail != s.consumer.head
  {
    RunKeeps(cap, buffer, es);
    var s := Run(cap, buffer, es);
    if s.producer.FoundRoom? && s.consumer.FoundItem? { ModApart(|s.popped|, |s.pushed|, cap); }
  }

  /** A push gives up only when the queue holds capacity - 1 items, a pop only when it is empty. */
  lemma FailuresAreReal<T>(cap: nat, buffer: seq<T>, es: seq<Event<T>>)
    requires CapacityOk(cap) && |buffer| == cap
    ensures var s := Run(cap, buffer, es);
            && |s.popped| <= |s.pushed|
            && (s.producer.LoadedTail? ==>
                  (Step(cap, s, PushCheck).producer.Outside? <==> |InFlight(s)| == cap - 1))
            && (s.consumer.LoadedHead? ==>
                  (Step(cap, s, PopCheck).consumer.Away? <==> |InFlight(s)| == 0))
  {
    RunKeeps(cap, buffer, es);
    FullAndEmpty(cap, Run(cap, buffer, es));
  }

  /** Each step is one of an atomic queue: publishing a push appends, publishing a pop removes
      the oldest item and returns it, every other step leaves the queue as it was. */
  lemma RefinesQueue<T>(cap: nat, s: State<T>, e: Event<T>)
    requires CapacityOk(cap) && Inv(cap, s)
    ensures var s' := Step(cap, s, e);
            && |s'.popped| <= |s'.pushed|
            && (if e.PushPublish? && s.producer.Wrote? then InFlight(s') == InFlight(s) + [s.producer.item]
                else if e.PopPublish? && s.consumer.Read? then
                  InFlight(s) == [s.consumer.item] + InFlight(s') && s'.popped == s.popped + [s.consumer.item]
                else InFlight(s') == InFlight(s))
  {
    StepKeeps(cap, s, e);
  }

  // ----- The class -----

  class SPSCQueue<T(0)> {
    const capacity: nat
    var head: nat
    var tail: nat
    var buffer: array<T>
    ghost var pushed: seq<T>
    ghost var popped: seq<T>

    /** The protocol state between calls. */
    ghost function Snapshot(): State<T>
      reads this, buffer
    {
      State(head, tail, buffer[..], Outside, Away, pushed, popped)
    }

    ghost predicate Valid()
      reads this, buffer
    {
      CapacityOk(capacity) && Inv(capacity, Snapshot())
    }

    ghost function Contents(): seq<T>
      requires Valid()
      reads this, buffer
    {
      InFlight(Snapshot())
    }

    constructor (cap: nat)
      requires CapacityOk(cap)
      ensures Valid() && capacity == cap && Contents() == [] && fresh(buffer)
    {
      capacity := cap;
      head, tail := 0, 0;
      buffer := new T[cap];
      pushed, popped := [], [];
    }

    method Push(item: T) returns (ok: bool)
      requires Valid()
      modifies `tail, `pushed, buffer
      ensures Valid()
      ensures ok == (|old(Contents())| < capacity - 1)
      ensures Contents() == if ok then old(Contents()) + [item] else old(Contents())
      ensures var s1 := Step(capacity, old(Snapshot()), PushStart(item));
              var s2 := Step(capacity, s1, PushCheck);
              var s3 := Step(capacity, s2, PushWrite);
              Snapshot() == Step(capacity, s3, PushPublish)
    {
      ghost var s := Snapshot();
      FullAndEmpty(capacity, s);
      ghost var s1 := Step(capacity, s, PushStart(item));
      StepKeeps(capacity, s, PushStart(item));
      var t := tail;
      var nextTail := And(t + 1, capacity - 1);
      ghost var s2 := Step(capacity, s1, PushCheck);
      StepKeeps(capacity, s1, PushCheck);
      if nextTail == head { return false; }
      StepKeeps(capacity, s2, PushWrite);
      ghost var s3 := Step(capacity, s2, PushWrite);
      StepKeeps(capacity, s3, PushPublish);
      buffer[t] := item;
      tail := nextTail;
      pushed := pushed + [item];
      assert Snapshot() == Step(capacity, s3, PushPublish);
      return true;
    }

    method Pop() returns (r: (bool, T))
      requires Valid()
      modifies `head, `popped
      ensures Valid()
      ensures r.0 == (old(Contents()) != [])
      ensures r.0 ==> old(Contents()) == [r.1] + Contents()
      ensures !r.0 ==> Contents() == []
      ensures var s1 := Step(capacity, old(Snapshot()), PopStart);
              var s2 := Step(capacity, s1, PopCheck);
              var s3 := Step(capacity, s2, PopRead);
              Snapshot() == Step(capacity, s3, PopPublish)
    {
      ghost var s := Snapshot();
      FullAndEmpty(capacity, s);
      ghost var s1 := Step(capacity, s, PopStart);
      StepKeeps(capacity, s, PopStart);
      var h := head;
      ghost var s2 := Step(capacity, s1, PopCheck);
      StepKeeps(capacity, s1, PopCheck);
      if h == tail {
        var none: T := *;
        return (false, none);
      }
      ghost var s3 := Step(capacity, s2, PopRead);
      StepKeeps(capacity, s2, PopRead);
      StepKeeps(capacity, s3, PopPublish);
      var item := buffer[h];
      head := And(h + 1, capacity - 1);
      popped := popped + [item];
      assert Snapshot() == Step(capacity, s3, PopPublish);
      return (true, item);
    }
  }
}
