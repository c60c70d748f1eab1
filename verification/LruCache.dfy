/** Least-recently-used cache: a doubly linked list and a hash index kept in agreement. */
module LruCache {
  import Pigeonhole
  import opened Sequences

  datatype Option<+T> = None | Some(value: T)

  // ----- Specification: a bounded recency list -----

  /** Entries, most recently used first. */
  type Entries<K, V> = seq<(K, V)>

  ghost predicate HasKey<K, V>(c: Entries<K, V>, k: K) {
    exists i :: 0 <= i < |c| && c[i].0 == k
  }

  ghost predicate DistinctKeys<K, V>(c: Entries<K, V>) {
    forall i, j :: 0 <= i < j < |c| ==> c[i].0 != c[j].0
  }

  ghost function Without<K, V>(c: Entries<K, V>, k: K): Entries<K, V> {
    if c == [] then [] else (if c[0].0 == k then [] else [c[0]]) + Without(c[1..], k)
  }

  ghost function Lookup<K, V>(c: Entries<K, V>, k: K): Option<V> {
    if c == [] then None else if c[0].0 == k then Some(c[0].1) else Lookup(c[1..], k)
  }

  /** A hit moves to the front; a miss changes nothing. */
  ghost function AfterGet<K, V>(c: Entries<K, V>, k: K): Entries<K, V> {
    match Lookup(c, k)
    case None => c
    case Some(v) => [(k, v)] + Without(c, k)
  }

  /** The new value goes to the front; a full cache gives up its last entry for a new key. */
  ghost function AfterPut<K, V>(c: Entries<K, V>, cap: nat, k: K, v: V): Entries<K, V>
    requires cap > 0
  {
    if Lookup(c, k).Some? then [(k, v)] + Without(c, k)
    else [(k, v)] + (if |c| == cap then c[..cap - 1] else c)
  }

  datatype Op<K, V> = Get(key: K) | Put(key: K, value: V)

  ghost function Apply<K, V>(c: Entries<K, V>, cap: nat, op: Op<K, V>): Entries<K, V>
    requires cap > 0
  {
    if op.Get? then AfterGet(c, op.key) else AfterPut(c, cap, op.key, op.value)
  }

  ghost function Run<K, V>(c: Entries<K, V>, cap: nat, ops: seq<Op<K, V>>): Entries<K, V>
    requires cap > 0
    decreases |ops|
  {
    if ops == [] then c else Apply(Run(c, cap, ops[..|ops| - 1]), cap, ops[|ops| - 1])
  }

  /** What operation number i of a run from c answers; a put answers nothing. */
  ghost function Answer<K, V>(c: Entries<K, V>, cap: nat, ops: seq<Op<K, V>>, i: int): Option<V>
    requires cap > 0 && 0 <= i < |ops|
  {
    if ops[i].Get? then Lookup(Run(c, cap, ops[..i]), ops[i].key) else None
  }

  ghost predicate Answers<K, V>(c: Entries<K, V>, cap: nat, ops: seq<Op<K, V>>, answers: seq<Option<V>>)
    requires cap > 0
  {
    |answers| == |ops| && forall i :: 0 <= i < |ops| ==> answers[i] == Answer(c, cap, ops, i)
  }

  lemma AnswersExtend<K, V>(c: Entries<K, V>, cap: nat, ops: seq<Op<K, V>>, answers: seq<Option<V>>, last: Option<V>)
    requires cap > 0 && ops != []
    ensures Answers(c, cap, ops[..|ops| - 1], answers) && last == Answer(c, cap, ops, |ops| - 1)
            ==> Answers(c, cap, ops, answers + [last])
  {
    if Answers(c, cap, ops[..|ops| - 1], answers) && last == Answer(c, cap, ops, |ops| - 1) {
      forall i | 0 <= i < |answers| ensures answers[i] == Answer(c, cap, ops, i) {
        assert ops[..|ops| - 1][..i] == ops[..i];
      }
    }
  }

  ghost function KeysOf<K, V>(c: Entries<K, V>): set<K> {
    set i | 0 <= i < |c| :: c[i].0
  }

  /** A put uses its key, and so does a get that finds it. */
  ghost predicate Uses<K, V>(c: Entries<K, V>, op: Op<K, V>) {
    op.Put? || HasKey(c, op.key)
  }

  /** The keys used along a run that starts from c. */
  ghost function Used<K, V>(c: Entries<K, V>, cap: nat, ops: seq<Op<K, V>>): set<K>
    requires cap > 0
    decreases |ops|
  {
    if ops == [] then {}
    else
      var rest, op := ops[..|ops| - 1], ops[|ops| - 1];
      Used(c, cap, rest) + if Uses(Run(c, cap, rest), op) then {op.key} else {}
  }

  lemma {:induction false} LookupAt<K, V>(c: Entries<K, V>, i: nat)
    requires DistinctKeys(c) && i < |c|
    ensures Lookup(c, c[i].0) == Some(c[i].1)
    ensures Without(c, c[i].0) == c[..i] + c[i + 1..]
  {
    if i == 0 {
      NotThere(c[1..], c[0].0);
      assert c[..0] + c[1..] == c[1..];
    } else {
      LookupAt(c[1..], i - 1);
      assert c[..i] == [c[0]] + c[1..][..i - 1];
      assert c[1..][i..] == c[i + 1..];
    }
  }

  lemma {:induction false} NotThere<K, V>(c: Entries<K, V>, k: K)
    requires !HasKey(c, k)
    ensures Lookup(c, k) == None && Without(c, k) == c
  {
    if c != [] {
      assert c[0].0 != k;
      forall i | 0 <= i < |c[1..]| ensures c[1..][i].0 != k { assert c[i + 1].0 != k; }
      NotThere(c[1..], k);
    }
  }

  /** Where the key sits: what a get or put makes of the list, by position. */
  lemma Positions<K, V>(c: Entries<K, V>, k: K)
    requires DistinctKeys(c)
    ensures Lookup(c, k).Some? <==> HasKey(c, k)
    ensures forall i :: 0 <= i < |c| && c[i].0 == k ==>
              Lookup(c, k) == Some(c[i].1) && Without(c, k) == c[..i] + c[i + 1..]
    ensures !HasKey(c, k) ==> Without(c, k) == c
  {
    if i :| 0 <= i < |c| && c[i].0 == k {
      LookupAt(c, i);
    } else {
      NotThere(c, k);
    }
  }

  /** Where position a of the list came from when entry i moved to the front. */
  function Source(a: int, i: int): int {
    if a == 0 then i else if a <= i then a - 1 else a
  }

  lemma FrontSource<K, V>(c: Entries<K, V>, i: nat, v: V, a: int)
    requires i < |c| && 0 <= a < |c|
    ensures 0 <= Source(a, i) < |c|
    ensures ([(c[i].0, v)] + (c[..i] + c[i + 1..]))[a].0 == c[Source(a, i)].0
  {
  }

  lemma FrontKeepsDistinct<K, V>(c: Entries<K, V>, i: nat, v: V)
    requires DistinctKeys(c) && i < |c|
    ensures DistinctKeys([(c[i].0, v)] + (c[..i] + c[i + 1..]))
    ensures KeysOf([(c[i].0, v)] + (c[..i] + c[i + 1..])) == KeysOf(c)
  {
    var c' := [(c[i].0, v)] + (c[..i] + c[i + 1..]);
    forall k | k in KeysOf(c) ensures k in KeysOf(c') {
      var j :| 0 <= j < |c| && c[j].0 == k;
      var a := if j == i then 0 else if j < i then j + 1 else j;
      FrontSource(c, i, v, a);
      assert c'[a].0 == k;
    }
    forall a | 0 <= a < |c'| ensures c'[a].0 in KeysOf(c) {
      FrontSource(c, i, v, a);
    }
    forall a, b | 0 <= a < b < |c'| ensures c'[a].0 != c'[b].0 {
      FrontSource(c, i, v, a);
      FrontSource(c, i, v, b);
      assert Source(a, i) != Source(b, i);
    }
  }

  lemma ApplyKeeps<K, V>(c: Entries<K, V>, cap: nat, op: Op<K, V>)
    requires cap > 0 && DistinctKeys(c) && |c| <= cap
    ensures DistinctKeys(Apply(c, cap, op)) && |Apply(c, cap, op)| <= cap
  {
    Positions(c, op.key);
    if i :| 0 <= i < |c| && c[i].0 == op.key {
      FrontKeepsDistinct(c, i, if op.Get? then c[i].1 else op.value);
    }
  }

  /** Keys stay distinct and the bound holds over every run. */
  lemma {:induction false} RunKeeps<K, V>(c: Entries<K, V>, cap: nat, ops: seq<Op<K, V>>)
    requires cap > 0 && DistinctKeys(c) && |c| <= cap
    ensures DistinctKeys(Run(c, cap, ops)) && |Run(c, cap, ops)| <= cap
    decreases |ops|
  {
    if ops != [] {
      RunKeeps(c, cap, ops[..|ops| - 1]);
      ApplyKeeps(Run(c, cap, ops[..|ops| - 1]), cap, ops[|ops| - 1]);
    }
  }

  // ----- What is stored, entry by entry -----

  /** (k, v) is in front, and everything behind it is an entry c had under another key. */
  ghost predicate FrontOver<K, V>(d: Entries<K, V>, k: K, v: V, c: Entries<K, V>) {
    d != [] && d[0] == (k, v) && forall i :: 0 < i < |d| ==> d[i].0 != k && d[i] in c
  }

  /** A put stores its value and leaves the other entries' values alone. */
  lemma PutStores<K, V>(c: Entries<K, V>, cap: nat, k: K, v: V)
    requires cap > 0 && DistinctKeys(c)
    ensures FrontOver(Apply(c, cap, Put(k, v)), k, v, c)
  {
    Positions(c, k);
    if q :| 0 <= q < |c| && c[q].0 == k {
      FrontRest(c, q, v);
    }
  }

  /** A get answers with an entry and brings it to the front, or finds none and changes nothing. */
  lemma GetFinds<K, V>(c: Entries<K, V>, cap: nat, k: K)
    requires cap > 0 && DistinctKeys(c)
    ensures var d := Apply(c, cap, Get(k));
            match Lookup(c, k)
            case Some(v) => (k, v) in c && FrontOver(d, k, v, c)
            case None => d == c && forall i :: 0 <= i < |c| ==> c[i].0 != k
  {
    Positions(c, k);
    if q :| 0 <= q < |c| && c[q].0 == k {
      FrontRest(c, q, c[q].1);
    }
  }

  lemma FrontRest<K, V>(c: Entries<K, V>, q: nat, v: V)
    requires DistinctKeys(c) && q < |c|
    ensures FrontOver([(c[q].0, v)] + (c[..q] + c[q + 1..]), c[q].0, v, c)
  {
    var d := [(c[q].0, v)] + (c[..q] + c[q + 1..]);
    forall i | 0 < i < |d| ensures d[i].0 != c[q].0 && d[i] in c {
      assert d[i] == c[if i <= q then i - 1 else i];
    }
  }

  /** v is the last value put under k, or the one it had at the start if there was none. */
  ghost predicate LastValue<K, V>(c: Entries<K, V>, ops: seq<Op<K, V>>, k: K, v: V)
    decreases |ops|
  {
    if ops == [] then (k, v) in c
    else
      var op := ops[|ops| - 1];
      if op.Put? && op.key == k then v == op.value else LastValue(c, ops[..|ops| - 1], k, v)
  }

  /** Where an entry comes from: the put just done, or the list before. */
  lemma EntryFrom<K, V>(c: Entries<K, V>, cap: nat, op: Op<K, V>, k: K, v: V)
    requires cap > 0 && DistinctKeys(c) && (k, v) in Apply(c, cap, op)
    ensures if op.Put? && op.key == k then v == op.value else (k, v) in c
  {
    var d := Apply(c, cap, op);
    var i :| 0 <= i < |d| && d[i] == (k, v);
    match op
    case Put(k', v') => PutStores(c, cap, k', v');
    case Get(k') => GetFinds(c, cap, k');
  }

  /** Over every run, each entry holds the last value put under its key. */
  lemma {:induction false} EntriesAreLast<K, V>(c: Entries<K, V>, cap: nat, ops: seq<Op<K, V>>, k: K, v: V)
    requires cap > 0 && DistinctKeys(c) && |c| <= cap && (k, v) in Run(c, cap, ops)
    ensures LastValue(c, ops, k, v)
    decreases |ops|
  {
    if ops != [] {
      var rest, op := ops[..|ops| - 1], ops[|ops| - 1];
      RunKeeps(c, cap, rest);
      EntryFrom(Run(c, cap, rest), cap, op, k, v);
      if !(op.Put? && op.key == k) { EntriesAreLast(c, cap, rest, k, v); }
    }
  }

  /** Each get that answers at all answers the last value put under its key. */
  ghost predicate AnswersLast<K, V>(c: Entries<K, V>, ops: seq<Op<K, V>>, answers: seq<Option<V>>) {
    |answers| == |ops| && forall i :: 0 <= i < |ops| && answers[i].Some? ==>
      ops[i].Get? && LastValue(c, ops[..i], ops[i].key, answers[i].value)
  }

  lemma AnswersAreLast<K, V>(c: Entries<K, V>, cap: nat, ops: seq<Op<K, V>>, answers: seq<Option<V>>)
    requires cap > 0 && DistinctKeys(c) && |c| <= cap && Answers(c, cap, ops, answers)
    ensures AnswersLast(c, ops, answers)
  {
    forall i | 0 <= i < |ops| && answers[i].Some?
      ensures ops[i].Get? && LastValue(c, ops[..i], ops[i].key, answers[i].value)
    {
      assert answers[i] == Answer(c, cap, ops, i);
      RunKeeps(c, cap, ops[..i]);
      GetFinds(Run(c, cap, ops[..i]), cap, ops[i].key);
      EntriesAreLast(c, cap, ops[..i], ops[i].key, answers[i].value);
    }
  }

  // ----- How long an entry stays -----

  /** Entry (k, v) is at position i. */
  ghost predicate Holds<K, V>(c: Entries<K, V>, i: int, k: K, v: V) {
    0 <= i < |c| && c[i] == (k, v)
  }

  lemma {:induction false} KeyCount<K, V>(c: Entries<K, V>)
    requires DistinctKeys(c)
    ensures |KeysOf(c)| == |c|
    decreases |c|
  {
    if c != [] {
      var rest, last := c[..|c| - 1], c[|c| - 1].0;
      KeyCount(rest);
      assert last !in KeysOf(rest);
      forall k ensures k in KeysOf(c) <==> k in KeysOf(rest) + {last} {
        if k in KeysOf(rest) {
          var i :| 0 <= i < |rest| && rest[i].0 == k;
          assert c[i].0 == k;
        }
        if k in KeysOf(c) {
          var i :| 0 <= i < |c| && c[i].0 == k;
          assert i < |rest| ==> rest[i].0 == k;
        }
      }
      assert KeysOf(c) == KeysOf(rest) + {last};
    } else {
      assert KeysOf(c) == {};
    }
  }

  /** A use of another key: the entry moves behind that key, if it was not behind it already. */
  lemma StaysBehind<K, V>(c: Entries<K, V>, cap: nat, op: Op<K, V>, i: nat, k: K, v: V) returns (i': nat)
    requires cap > 0 && DistinctKeys(c) && |c| <= cap && Holds(c, i, k, v) && Uses(c, op) && op.key != k
    requires op.key in KeysOf(c[..i]) || i + 1 < cap
    ensures var c' := Apply(c, cap, op);
            Holds(c', i', k, v) && KeysOf(c'[..i']) == KeysOf(c[..i]) + {op.key}
  {
    Positions(c, op.key);
    var c' := Apply(c, cap, op);
    if j :| 0 <= j < |c| && c[j].0 == op.key {
      var w := if op.Get? then c[j].1 else op.value;
      assert c' == [(op.key, w)] + (c[..j] + c[j + 1..]);
      i' := if j < i then i else i + 1;
      FrontKeys(c, j, w, i, i');
    } else {
      i' := i + 1;
      NewInFront(c, op.key, op.value, i, c');
    }
  }

  /** A get that finds nothing changes nothing. */
  lemma NoUse<K, V>(c: Entries<K, V>, cap: nat, op: Op<K, V>)
    requires cap > 0 && !Uses(c, op)
    ensures Apply(c, cap, op) == c
  {
    NotThere(c, op.key);
  }

  /** A new entry in front, with perhaps a later one dropped, puts only its key ahead of i. */
  lemma NewInFront<K, V>(c: Entries<K, V>, k: K, v: V, i: nat, c': Entries<K, V>)
    requires i < |c| && i + 1 < |c'| <= |c| + 1
    requires c'[0] == (k, v) && forall q :: 0 < q < |c'| ==> c'[q] == c[q - 1]
    ensures c'[i + 1] == c[i] && KeysOf(c'[..i + 1]) == KeysOf(c[..i]) + {k}
  {
    var ahead := c'[..i + 1];
    forall x | x in KeysOf(c[..i]) ensures x in KeysOf(ahead) {
      var q :| 0 <= q < i && c[q].0 == x;
      assert ahead[q + 1].0 == x;
    }
    assert ahead[0].0 == k;
    assert forall q :: 0 < q < |ahead| ==> ahead[q].0 == c[..i][q - 1].0;
  }

  lemma FrontKeys<K, V>(c: Entries<K, V>, j: nat, w: V, i: nat, i': nat)
    requires DistinctKeys(c) && j < |c| && i < |c| && i != j
    requires i' == if j < i then i else i + 1
    ensures var c' := [(c[j].0, w)] + (c[..j] + c[j + 1..]);
            i' < |c'| && c'[i'] == c[i] && KeysOf(c'[..i']) == KeysOf(c[..i]) + {c[j].0}
  {
    var c' := [(c[j].0, w)] + (c[..j] + c[j + 1..]);
    forall q | 0 <= q < i' ensures c'[q].0 in KeysOf(c[..i]) + {c[j].0} {
      FrontSource(c, j, w, q);
      if q > 0 { assert c[..i][Source(q, j)].0 == c'[q].0; }
    }
    forall q | 0 <= q < i ensures c[q].0 in KeysOf(c'[..i']) {
      var q' := if q == j then 0 else if q < j then q + 1 else q;
      FrontSource(c, j, w, q');
      assert c'[..i'][q'].0 == c[q].0;
    }
    assert c'[..i'][0].0 == c[j].0;
  }

  /** An entry just used survives while fewer than cap other keys are used, and is preceded by
      exactly those. */
  lemma {:induction false} RecentStays<K, V>(c: Entries<K, V>, cap: nat, ops: seq<Op<K, V>>, k: K, v: V)
    returns (i: nat)
    requires cap > 0 && DistinctKeys(c) && |c| <= cap && Holds(c, 0, k, v)
    requires k !in Used(c, cap, ops) && |Used(c, cap, ops)| < cap
    ensures Holds(Run(c, cap, ops), i, k, v) && KeysOf(Run(c, cap, ops)[..i]) == Used(c, cap, ops)
    decreases |ops|
  {
    if ops == [] {
      i := 0;
    } else {
      var rest, op := ops[..|ops| - 1], ops[|ops| - 1];
      var b := Run(c, cap, rest);
      Pigeonhole.SubsetSize(Used(c, cap, rest), Used(c, cap, ops));
      i := RecentStays(c, cap, rest, k, v);
      if Uses(b, op) {
        RunKeeps(c, cap, rest);
        KeyCount(b[..i]);
        i := StaysBehind(b, cap, op, i, k, v);
      } else {
        NoUse(b, cap, op);
      }
    }
  }

  /** While an entry is still there, the keys used since are exactly those ahead of it. */
  lemma {:induction false} UsesGoAhead<K, V>(c: Entries<K, V>, cap: nat, ops: seq<Op<K, V>>, k: K, v: V)
    requires cap > 0 && DistinctKeys(c) && |c| <= cap && Holds(c, 0, k, v) && k !in Used(c, cap, ops)
    ensures var d := Run(c, cap, ops);
            forall i :: 0 <= i < |d| && d[i].0 == k ==> d[i].1 == v && KeysOf(d[..i]) == Used(c, cap, ops)
    decreases |ops|
  {
    var d := Run(c, cap, ops);
    if ops == [] {
      assert forall i :: 0 < i < |c| ==> c[i].0 != c[0].0;
    } else {
      var rest, op := ops[..|ops| - 1], ops[|ops| - 1];
      UsesGoAhead(c, cap, rest, k, v);
      var b := Run(c, cap, rest);
      RunKeeps(c, cap, rest);
      RunKeeps(c, cap, ops);
      if Uses(b, op) {
        forall i | 0 <= i < |d| && d[i].0 == k ensures d[i].1 == v && KeysOf(d[..i]) == Used(c, cap, ops) {
          var j := CameFrom(b, cap, op, i, k);
          var i' := StaysBehind(b, cap, op, j, k, v);
          assert i' == i;
        }
      } else {
        NoUse(b, cap, op);
      }
    }
  }

  /** An entry present after a use of another key was present before it, and did not have to
      make room. */
  lemma CameFrom<K, V>(b: Entries<K, V>, cap: nat, op: Op<K, V>, i: nat, k: K) returns (j: nat)
    requires cap > 0 && DistinctKeys(b) && |b| <= cap && Uses(b, op) && op.key != k
    requires i < |Apply(b, cap, op)| && Apply(b, cap, op)[i].0 == k
    ensures j < |b| && b[j].0 == k && (op.key in KeysOf(b[..j]) || j + 1 < cap)
  {
    Positions(b, op.key);
    var d := Apply(b, cap, op);
    if q :| 0 <= q < |b| && b[q].0 == op.key {
      assert d == [(op.key, if op.Get? then b[q].1 else op.value)] + (b[..q] + b[q + 1..]);
      j := if i <= q then i - 1 else i;
      if j + 1 >= cap { assert b[..j][q].0 == op.key; }
    } else {
      j := i - 1;
    }
  }

  /** The eviction policy, exactly: after a use of k, and until the next, k is still there if and
      only if fewer than cap other keys have been used. */
  lemma EvictionPolicy<K, V>(c: Entries<K, V>, cap: nat, ops: seq<Op<K, V>>, k: K, v: V)
    requires cap > 0 && DistinctKeys(c) && |c| <= cap && Holds(c, 0, k, v) && k !in Used(c, cap, ops)
    ensures Lookup(Run(c, cap, ops), k) == if |Used(c, cap, ops)| < cap then Some(v) else None
  {
    var d := Run(c, cap, ops);
    RunKeeps(c, cap, ops);
    Positions(d, k);
    if |Used(c, cap, ops)| < cap {
      var i := RecentStays(c, cap, ops, k, v);
    } else if i :| 0 <= i < |d| && d[i].0 == k {
      UsesGoAhead(c, cap, ops, k, v);
      KeyCount(d[..i]);
    }
  }

  // ----- The implementation -----

  class Node<K, V> {
    const key: K
    var value: V
    var prev: Node?<K, V>
    var next: Node?<K, V>

    constructor (k: K, v: V)
      ensures key == k && value == v && prev == null && next == null
    {
      key, value, prev, next := k, v, null, null;
    }
  }

  /** The nodes of order point to their neighbours, from head to tail. */
  ghost predicate Chained<K, V>(order: seq<Node<K, V>>)
    reads order
  {
    && (forall i {:trigger order[i].prev} :: 0 <= i < |order| ==>
          order[i].prev == if i == 0 then null else order[i - 1])
    && (forall i {:trigger order[i].next} :: 0 <= i < |order| ==>
          order[i].next == if i + 1 == |order| then null else order[i + 1])
  }

  /** The links once the neighbours of order[i] point past it. */
  ghost predicate Bypassed<K, V>(order: seq<Node<K, V>>, i: int)
    requires 0 < i < |order|
    reads order
  {
    && (forall j {:trigger order[j].prev} :: 0 <= j < |order| ==>
          order[j].prev == if j == 0 then null else if j == i + 1 then order[i - 1] else order[j - 1])
    && (forall j {:trigger order[j].next} :: 0 <= j < |order| ==>
          order[j].next == if j + 1 == |order| || (j + 1 == i && i + 1 == |order|) then null
                           else if j + 1 == i then order[i + 1] else order[j + 1])
  }

  /** Where position j of a sequence came from when position i was left out. */
  function Skip(j: int, i: int): int {
    if j < i then j else j + 1
  }

  lemma SkipAt<T>(s: seq<T>, i: int, rest: seq<T>, j: int)
    requires 0 <= i < |s| && rest == s[..i] + s[i + 1..] && 0 <= j < |rest|
    ensures 0 <= Skip(j, i) < |s| && Skip(j, i) != i && rest[j] == s[Skip(j, i)]
  {
  }

  lemma SkipDistinct<T>(s: seq<T>, i: int, rest: seq<T>)
    requires 0 <= i < |s| && rest == s[..i] + s[i + 1..] && Distinct(s)
    ensures Distinct(rest) && s[i] !in rest
  {
    forall j, k | 0 <= j < k < |rest| ensures rest[j] != rest[k] {
      SkipAt(s, i, rest, j);
      SkipAt(s, i, rest, k);
    }
    forall j | 0 <= j < |rest| ensures rest[j] != s[i] {
      SkipAt(s, i, rest, j);
    }
  }

  lemma LinksAt<K, V>(order: seq<Node<K, V>>, i: int, rest: seq<Node<K, V>>, j: int)
    requires 0 < i < |order| && Bypassed(order, i) && rest == order[..i] + order[i + 1..] && 0 <= j < |rest|
    ensures rest[j].prev == if j == 0 then null else rest[j - 1]
    ensures rest[j].next == if j + 1 == |rest| then null else rest[j + 1]
  {
    SkipAt(order, i, rest, j);
    if j > 0 { SkipAt(order, i, rest, j - 1); }
    if j + 1 < |rest| { SkipAt(order, i, rest, j + 1); }
  }

  /** Leaving order[i] out, the rest is linked. */
  lemma BypassedIsChained<K, V>(order: seq<Node<K, V>>, i: int, rest: seq<Node<K, V>>)
    requires 0 < i < |order| && Bypassed(order, i) && Distinct(order) && rest == order[..i] + order[i + 1..]
    ensures Chained(rest) && Distinct(rest) && order[i] !in rest
    ensures rest[|rest| - 1] == if i + 1 == |order| then order[i - 1] else order[|order| - 1]
  {
    forall j | 0 <= j < |rest|
      ensures rest[j].prev == if j == 0 then null else rest[j - 1]
      ensures rest[j].next == if j + 1 == |rest| then null else rest[j + 1]
    {
      LinksAt(order, i, rest, j);
    }
    SkipDistinct(order, i, rest);
    SkipAt(order, i, rest, |rest| - 1);
  }

  ghost predicate NodeIndexed<K, V>(index: map<K, Node<K, V>>, n: Node<K, V>) {
    n.key in index && index[n.key] == n
  }

  ghost predicate KeyLinked<K, V>(order: seq<Node<K, V>>, index: map<K, Node<K, V>>, k: K)
    requires k in index
  {
    index[k] in order && index[k].key == k
  }

  /** The index maps each linked node's key to it, and nothing else. */
  ghost predicate Indexed<K, V>(order: seq<Node<K, V>>, index: map<K, Node<K, V>>) {
    && (forall n {:trigger NodeIndexed(index, n)} :: n in order ==> NodeIndexed(index, n))
    && (forall k {:trigger KeyLinked(order, index, k)} :: k in index ==> KeyLinked(order, index, k))
  }

  class LRUCache<K(==), V> {
    const capacity: nat
    var size: nat
    var head: Node?<K, V>
    var tail: Node?<K, V>
    var index: map<K, Node<K, V>>
    ghost var order: seq<Node<K, V>>
    ghost var Repr: set<object>

    /** head, tail and the links spell out order. */
    ghost predicate Linked()
      reads this, order
    {
      && head == (if order == [] then null else order[0])
      && tail == (if order == [] then null else order[|order| - 1])
      && Chained(order) && Distinct(order)
    }

    /** Repr holds the cache and its nodes. */
    ghost predicate Owns()
      reads this
    {
      this in Repr && forall n :: n in order ==> n in Repr
    }

    ghost predicate Valid()
      reads this, order
    {
      && capacity > 0 && size == |order| <= capacity && Linked() && Indexed(order, index)
      && Owns()
    }

    ghost function Contents(): Entries<K, V>
      reads this, order
    {
      seq(|order|, i requires 0 <= i < |order| reads this, order => (order[i].key, order[i].value))
    }

    constructor (cap: nat)
      requires cap > 0
      ensures Valid() && Contents() == [] && capacity == cap && fresh(Repr)
    {
      capacity, size := cap, 0;
      head, tail := null, null;
      index, order, Repr := map[], [], {this};
    }

    method Bypass(node: Node<K, V>, ghost i: nat)
      requires Linked() && 0 < i < |order| && order[i] == node
      modifies order
      ensures Bypassed(order, i) && forall j :: 0 <= j < |order| ==> order[j].value == old(order[j].value)
    {
      assert node.prev == order[i - 1];
      assert node.next == if i + 1 == |order| then null else order[i + 1];
      if node.prev != null { node.prev.next := node.next; }
      if node.next != null { node.next.prev := node.prev; }
    }

    /** Unlink a node other than the first. */
    method Detach(node: Node<K, V>, ghost i: nat)
      requires Linked() && 0 < i < |order| && order[i] == node
      modifies `tail, `order, order
      ensures Linked() && order == old(order)[..i] + old(order)[i + 1..]
      ensures Contents() == old(Contents())[..i] + old(Contents())[i + 1..] && node.value == old(node.value)
      ensures node !in order
    {
      ghost var was, c := order, Contents();
      Bypass(node, i);
      assert node.prev == was[i - 1];
      if node == tail { tail := node.prev; }
      order := order[..i] + order[i + 1..];
      BypassedIsChained(was, i, order);
      assert Contents() == c[..i] + c[i + 1..];
    }

    /** Put a node that is not linked in front; a new node's prev is null already. */
    method AttachFront(node: Node<K, V>)
      requires Linked() && node !in order
      modifies `head, `tail, `order, order, node
      ensures Linked() && order == [node] + old(order)
      ensures Contents() == [(node.key, node.value)] + old(Contents()) && node.value == old(node.value)
    {
      node.prev := null;
      node.next := head;
      if head != null { head.prev := node; }
      head := node;
      if tail == null { tail := node; }
      order := [node] + order;
    }

    method MoveToFront(node: Node<K, V>, ghost i: nat)
      requires Linked() && i < |order| && order[i] == node
      modifies `head, `tail, `order, order
      ensures Linked() && order == [node] + (old(order)[..i] + old(order)[i + 1..])
      ensures Contents() == [(node.key, node.value)] + (old(Contents())[..i] + old(Contents())[i + 1..])
      ensures node.value == old(node.value)
    {
      if node == head {
        AlreadyFirst(order);
        AlreadyFirst(Contents());
        return;
      }
      Detach(node, i);
      AttachFront(node);
    }

    method DetachLast() returns (victim: Node<K, V>)
      requires Linked() && order != []
      modifies `head, `tail, `order, order
      ensures Linked() && order == old(order)[..|old(order)| - 1] && victim == old(order)[|old(order)| - 1]
      ensures Contents() == old(Contents())[..|old(order)| - 1]
    {
      victim := tail;
      assert victim.prev == if |order| == 1 then null else order[|order| - 2];
      tail := tail.prev;
      if tail != null { tail.next := null; } else { head := null; }
      order := order[..|order| - 1];
    }

    /** Drop the last node, if any, from the list and the index. */
    method Evict()
      requires Valid()
      modifies this, order
      ensures Valid() && Repr == old(Repr)
      ensures order <= old(order) && forall k :: k in index ==> k in old(index)
      ensures Contents() == if old(Contents()) == [] then [] else old(Contents())[..|old(Contents())| - 1]
    {
      if tail == null { return; }
      DropIndexed(order, index);
      var victim := DetachLast();
      index := index - {victim.key};
      size := size - 1;
    }

    method Get(k: K) returns (r: Option<V>)
      requires Valid()
      modifies Repr
      ensures Valid() && fresh(Repr - old(Repr))
      ensures r == Lookup(old(Contents()), k)
      ensures Contents() == AfterGet(old(Contents()), k)
      ensures r.Some? ==> (k, r.value) in old(Contents()) && FrontOver(Contents(), k, r.value, old(Contents()))
      ensures r.None? ==> Contents() == old(Contents()) && !HasKey(Contents(), k)
    {
      KeysDistinct();
      GetFinds(Contents(), capacity, k);
      if k !in index {
        Miss(k);
        return None;
      }
      var node := index[k];
      ghost var i := Hit(k);
      ghost var was := order;
      MoveToFront(node, i);
      SameIndexed(was, order, i, index);
      return Some(node.value);
    }

    method Put(k: K, v: V)
      requires Valid()
      modifies Repr
      ensures Valid() && fresh(Repr - old(Repr))
      ensures Contents() == AfterPut(old(Contents()), capacity, k, v)
      ensures FrontOver(Contents(), k, v, old(Contents()))
    {
      KeysDistinct();
      PutStores(Contents(), capacity, k, v);
      if k in index {
        Renew(k, v);
        return;
      }
      Miss(k);
      if size == capacity { Evict(); }
      Insert(k, v);
    }

    /** Store a value under a key that is present. */
    method Renew(k: K, v: V)
      requires Valid() && k in index
      modifies this, order
      ensures Valid() && fresh(Repr - old(Repr))
      ensures Contents() == AfterPut(old(Contents()), capacity, k, v)
    {
      var node := index[k];
      ghost var i := Hit(k);
      ghost var c, was := Contents(), order;
      node.value := v;
      assert Contents() == c[i := (k, v)];
      MoveToFront(node, i);
      SameIndexed(was, order, i, index);
    }

    /** Link and index a node for a new key. */
    method Insert(k: K, v: V)
      requires Valid() && size < capacity && k !in index
      modifies this, order
      ensures Valid() && fresh(Repr - old(Repr))
      ensures Contents() == [(k, v)] + old(Contents())
    {
      var node := new Node(k, v);
      AddIndexed(order, index, node);
      AttachFront(node);
      Repr := Repr + {node};
      index := index[k := node];
      size := size + 1;
    }

    method Do(op: Op<K, V>) returns (answer: Option<V>)
      requires Valid()
      modifies Repr
      ensures Valid() && fresh(Repr - old(Repr))
      ensures Contents() == Apply(old(Contents()), capacity, op)
      ensures answer == if op.Get? then Lookup(old(Contents()), op.key) else None
    {
      match op
      case Get(k) => answer := Get(k);
      case Put(k, v) => answer := None; Put(k, v);
    }

    /** Any run of operations leaves what the recency list says, each get answered from the list
        as it stood. */
    method Perform(ops: seq<Op<K, V>>) returns (answers: seq<Option<V>>)
      requires Valid()
      modifies Repr
      ensures Valid() && fresh(Repr - old(Repr))
      ensures Contents() == Run(old(Contents()), capacity, ops)
      ensures Answers(old(Contents()), capacity, ops, answers) && AnswersLast(old(Contents()), ops, answers)
      decreases |ops|
    {
      if ops == [] { return []; }
      var rest, op := ops[..|ops| - 1], ops[|ops| - 1];
      ghost var c := Contents();
      KeysDistinct();
      var before := Perform(rest);
      var answer := Do(op);
      AnswersExtend(c, capacity, ops, before, answer);
      answers := before + [answer];
      AnswersAreLast(c, capacity, ops, answers);
    }

    /** An indexed key has an entry, and its node sits where the entry does. */
    lemma Hit(k: K) returns (i: nat)
      requires Valid() && k in index
      ensures i < |order| && order[i] == index[k] && index[k].key == k
      ensures var c := Contents();
              DistinctKeys(c) && c[i] == (k, index[k].value) && Lookup(c, k) == Some(index[k].value)
              && Without(c, k) == c[..i] + c[i + 1..]
    {
      assert KeyLinked(order, index, k);
      i :| 0 <= i < |order| && order[i] == index[k];
      KeysDistinct();
      Positions(Contents(), k);
    }

    lemma Miss(k: K)
      requires Valid() && k !in index
      ensures Lookup(Contents(), k) == None
    {
      KeysDistinct();
      Positions(Contents(), k);
    }

    /** The entries' keys are those of the nodes, so they are distinct. */
    lemma KeysDistinct()
      requires Valid()
      ensures DistinctKeys(Contents())
      ensures forall k :: HasKey(Contents(), k) ==> k in index
    {
      forall i | 0 <= i < |order| ensures order[i].key in index && index[order[i].key] == order[i] {
        assert NodeIndexed(index, order[i]);
      }
    }
  }

  lemma AlreadyFirst<T>(s: seq<T>)
    requires s != []
    ensures s == [s[0]] + (s[..0] + s[1..])
  {
  }

  lemma AddIndexed<K, V>(order: seq<Node<K, V>>, index: map<K, Node<K, V>>, node: Node<K, V>)
    requires Indexed(order, index) && node.key !in index
    ensures node !in order && Indexed([node] + order, index[node.key := node])
  {
    var order', index' := [node] + order, index[node.key := node];
    assert !NodeIndexed(index, node);
    forall n | n in order' ensures NodeIndexed(index', n) {
      assert n == node || n in order;
      assert n in order ==> NodeIndexed(index, n);
    }
    forall k | k in index' ensures KeyLinked(order', index', k) {
      assert k in index ==> KeyLinked(order, index, k);
      assert order'[0] == node && forall n :: n in order ==> n in order';
    }
  }

  lemma DropIndexed<K, V>(order: seq<Node<K, V>>, index: map<K, Node<K, V>>)
    requires order != [] && Distinct(order) && Indexed(order, index)
    ensures Indexed(order[..|order| - 1], index - {order[|order| - 1].key})
  {
    var last, order' := order[|order| - 1], order[..|order| - 1];
    var index' := index - {last.key};
    assert last in order && NodeIndexed(index, last);
    assert last !in order';
    forall n | n in order' ensures NodeIndexed(index', n) {
      assert n in order && NodeIndexed(index, n);
    }
    forall k | k in index' ensures KeyLinked(order', index', k) {
      assert KeyLinked(order, index, k);
      assert order == order' + [last];
    }
  }

  lemma SameIndexed<K, V>(order: seq<Node<K, V>>, order': seq<Node<K, V>>, i: nat, index: map<K, Node<K, V>>)
    requires Indexed(order, index) && i < |order|
    requires order' == [order[i]] + (order[..i] + order[i + 1..])
    ensures Indexed(order', index)
  {
    forall k | k in index ensures KeyLinked(order', index, k) {
      assert KeyLinked(order, index, k);
      var j :| 0 <= j < |order| && order[j] == index[k];
      assert order'[if j == i then 0 else if j < i then j + 1 else j] == order[j];
    }
    forall n | n in order' ensures NodeIndexed(index, n) {
      var j :| 0 <= j < |order'| && order'[j] == n;
      assert n == order[if j == 0 then i else if j <= i then j - 1 else j];
      assert NodeIndexed(index, n);
    }
  }
}