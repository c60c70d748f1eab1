/** Floyd's fast and slow pointers over a singly linked list that may run into itself. */
module Floyd {
  import Pigeonhole

  class ListNode {
    var val: int
    var next: ListNode?
    constructor (v: int, n: ListNode?)
      ensures val == v && next == n
    {
      val, next := v, n;
    }
  }

  /** The next pointers of a finite set of nodes. */
  type Links = map<ListNode, ListNode?>

  ghost function LinksOf(nodes: set<ListNode>): Links
    reads nodes
  {
    map n | n in nodes :: n.next
  }

  /** The list from head stays within the nodes of f. */
  ghost predicate ListIn(f: Links, head: ListNode?) {
    && (head == null || head in f)
    && (forall n :: n in f ==> f[n] == null || f[n] in f)
  }

  /** The node k steps from head; null once the list has ended. */
  ghost function At(f: Links, head: ListNode?, k: nat): (n: ListNode?)
    requires ListIn(f, head)
    ensures n == null || n in f
  {
    if k == 0 then head
    else
      var p := At(f, head, k - 1);
      if p == null then null else f[p]
  }

  ghost predicate Ends(f: Links, head: ListNode?)
    requires ListIn(f, head)
  {
    exists k: nat :: At(f, head, k) == null
  }

  /** Going on for len steps from position j leads back to the same node. */
  ghost predicate Returns(f: Links, head: ListNode?, j: nat, len: nat)
    requires ListIn(f, head)
  {
    len > 0 && At(f, head, j) != null && At(f, head, j + len) == At(f, head, j)
  }

  ghost predicate OnCycle(f: Links, head: ListNode?, j: nat)
    requires ListIn(f, head)
  {
    exists len :: Returns(f, head, j, len)
  }

  /** r is the first node from head that lies on the cycle. */
  ghost predicate IsCycleStart(f: Links, head: ListNode?, r: ListNode)
    requires ListIn(f, head)
  {
    exists mu: nat :: At(f, head, mu) == r && OnCycle(f, head, mu) && forall j: nat :: j < mu ==> !OnCycle(f, head, j)
  }

  lemma {:induction false} Shift(f: Links, head: ListNode?, i: nat, j: nat, d: nat)
    requires ListIn(f, head) && At(f, head, i) == At(f, head, j)
    ensures At(f, head, i + d) == At(f, head, j + d)
  {
    if d > 0 { Shift(f, head, i, j, d - 1); }
  }

  lemma {:induction false} NullStays(f: Links, head: ListNode?, i: nat, j: nat)
    requires ListIn(f, head) && At(f, head, i) == null && i <= j
    ensures At(f, head, j) == null
    decreases j
  {
    if i < j { NullStays(f, head, i, j - 1); }
  }

  lemma {:induction false} ManyLaps(f: Links, head: ListNode?, j: nat, len: nat, laps: nat)
    requires ListIn(f, head) && At(f, head, j + len) == At(f, head, j)
    ensures At(f, head, j + laps * len) == At(f, head, j)
  {
    if laps > 0 {
      ManyLaps(f, head, j, len, laps - 1);
      Shift(f, head, j + len, j, (laps - 1) * len);
      assert j + len + (laps - 1) * len == j + laps * len;
    }
  }

  /** A list that returns to a node never ends. */
  lemma CycleNeverEnds(f: Links, head: ListNode?, j: nat)
    requires ListIn(f, head) && OnCycle(f, head, j)
    ensures !Ends(f, head)
  {
    var len :| Returns(f, head, j, len);
    forall k: nat ensures At(f, head, k) != null {
      ManyLaps(f, head, j, len, k);
      assert k * len >= k;
      if At(f, head, k) == null { NullStays(f, head, k, j + k * len); }
    }
  }

  /** Some step count, no more than there are nodes, at which the fast pointer, twice as far, is
      where the slow one is. */
  lemma Meeting(f: Links, head: ListNode?) returns (b: nat)
    requires ListIn(f, head)
    ensures b > 0 && (head != null ==> b <= |f|) && At(f, head, b) == At(f, head, 2 * b)
  {
    var s := seq(|f| + 1, k requires 0 <= k => At(f, head, k));
    if k :| 0 <= k < |s| && s[k] == null {
      b := if k == 0 then 1 else k;
      NullStays(f, head, k, b);
      NullStays(f, head, k, 2 * b);
      return;
    }
    var holes: set<ListNode?> := set n | n in f.Keys;
    assert holes == f.Keys;
    var i, j := Pigeonhole.Repeats(s, holes);
    var laps: nat;
    b, laps := LastMultiple(j, j - i);
    Shift(f, head, j, i, b - i);
    ManyLaps(f, head, b, j - i, laps);
  }

  /** The last multiple of len up to j. */
  lemma LastMultiple(j: nat, len: nat) returns (b: nat, laps: nat)
    requires 0 < len <= j
    ensures b == laps * len && j - len < b <= j && b > 0
  {
    laps := j / len;
    b := laps * len;
  }

  /** Once the pointers have met after i steps, i steps lead every cycle node back to itself. */
  lemma MeetingIsLap(f: Links, head: ListNode?, i: nat, j: nat)
    requires ListIn(f, head) && i > 0 && At(f, head, i) == At(f, head, 2 * i) && OnCycle(f, head, j)
    ensures At(f, head, j + i) == At(f, head, j)
  {
    var len :| Returns(f, head, j, len);
    var k := j + i * len;
    assert i * len >= i;
    ManyLaps(f, head, j, len, i);
    Shift(f, head, i, 2 * i, k - i);
    Shift(f, head, j, k, i);
  }

  /** rounds counts the moves of the two pointers. */
  method HasCycle(head: ListNode?, ghost nodes: set<ListNode>) returns (r: bool, ghost rounds: nat)
    requires ListIn(LinksOf(nodes), head)
    ensures r == !Ends(LinksOf(nodes), head)
    ensures rounds <= |nodes|
  {
    ghost var f := LinksOf(nodes);
    assert f.Keys == nodes;
    ghost var b := Meeting(f, head);
    ghost var i: nat := 0;
    var slow, fast := head, head;
    while fast != null && fast.next != null
      invariant i <= b && (head == null ==> i == 0) && slow == At(f, head, i) && fast == At(f, head, 2 * i)
      invariant forall k: nat :: 1 <= k <= i ==> At(f, head, k) != At(f, head, 2 * k)
      decreases b - i
    {
      Advance(f, head, i, fast);
      slow := slow.next;
      fast := fast.next.next;
      i := i + 1;
      if slow == fast {
        assert Returns(f, head, i, i);
        CycleNeverEnds(f, head, i);
        return true, i;
      }
    }
    assert At(f, head, 2 * i + 1) == null;
    return false, i;
  }

  /** While the fast pointer can move, both stay on the list. */
  lemma Advance(f: Links, head: ListNode?, i: nat, fast: ListNode)
    requires ListIn(f, head) && fast == At(f, head, 2 * i) && f[fast] != null
    ensures At(f, head, i) != null && At(f, head, i + 1) != null
    ensures At(f, head, 2 * i + 1) == f[fast] && At(f, head, 2 * (i + 1)) == f[f[fast]]
    ensures At(f, head, i + 1) == f[At(f, head, i)]
  {
    assert At(f, head, 2 * i + 1) == f[fast];
    if At(f, head, i) == null { NullStays(f, head, i, 2 * i); }
    if At(f, head, i + 1) == null { NullStays(f, head, i + 1, 2 * i + 1); }
  }

  /** rounds counts the moves until the pointers meet, walked those after. */
  method FindCycleStart(head: ListNode?, ghost nodes: set<ListNode>)
    returns (r: ListNode?, ghost rounds: nat, ghost walked: nat)
    requires ListIn(LinksOf(nodes), head)
    ensures r == null <==> Ends(LinksOf(nodes), head)
    ensures r != null ==> IsCycleStart(LinksOf(nodes), head, r)
    ensures walked <= rounds <= |nodes|
  {
    ghost var f := LinksOf(nodes);
    assert f.Keys == nodes;
    ghost var b := Meeting(f, head);
    ghost var i: nat := 0;
    var slow, fast := head, head;
    while fast != null && fast.next != null
      invariant i <= b && (head == null ==> i == 0) && slow == At(f, head, i) && fast == At(f, head, 2 * i)
      invariant forall k: nat :: 1 <= k <= i ==> At(f, head, k) != At(f, head, 2 * k)
      decreases b - i
    {
      Advance(f, head, i, fast);
      slow := slow.next;
      fast := fast.next.next;
      i := i + 1;
      if slow == fast {
        assert Returns(f, head, i, i);
        CycleNeverEnds(f, head, i);
        slow := head;
        ghost var t: nat := 0;
        while slow != fast
          invariant t <= i && slow == At(f, head, t) && fast == At(f, head, i + t)
          invariant forall j: nat :: j < t ==> !OnCycle(f, head, j)
          decreases i - t
        {
          if OnCycle(f, head, t) { MeetingIsLap(f, head, i, t); }
          assert At(f, head, t) != null && At(f, head, i + t) != null;
          slow := slow.next;
          fast := fast.next;
          t := t + 1;
        }
        assert At(f, head, t) != null;
        assert Returns(f, head, t, i);
        return slow, i, t;
      }
    }
    assert At(f, head, 2 * i + 1) == null;
    return null, i, 0;
  }
}
