/**
 The kernel's doubly linked list (list.c): nodes with prev, next and list pointers, specified by
 the sequence of nodes the list threads together.
 */
module LinkedList {

  class Node<T(==)> {
    var data: T
    var prev: Node?<T>
    var next: Node?<T>
    var list: List?<T>

    constructor (data: T, prev: Node?<T>, next: Node?<T>, list: List?<T>)
      ensures this.data == data && this.prev == prev && this.next == next && this.list == list
    {
      this.data, this.prev, this.next, this.list := data, prev, next, list;
    }
  }

  ghost predicate Distinct<T>(s: seq<Node<T>>) {
    forall i, j :: 0 <= i < j < |s| ==> s[i] != s[j]
  }

  ghost function NextIn<T>(s: seq<Node<T>>, i: nat): Node?<T> {
    if i + 1 < |s| then s[i + 1] else null
  }

  ghost function PrevIn<T>(s: seq<Node<T>>, i: nat): Node?<T> {
    if 0 < i <= |s| then s[i - 1] else null
  }

  ghost function Inserted<T>(s: seq<T>, k: nat, x: T): seq<T>
    requires k <= |s|
  {
    s[..k] + [x] + s[k..]
  }

  ghost function Removed<T>(s: seq<T>, k: nat): seq<T>
    requires k < |s|
  {
    s[..k] + s[k + 1..]
  }

  lemma InsertedDistinct<T>(s: seq<Node<T>>, k: nat, n: Node<T>)
    requires Distinct(s) && k <= |s| && n !in s
    ensures Distinct(Inserted(s, k, n))
  {
  }

  lemma RemovedDistinct<T>(s: seq<Node<T>>, k: nat)
    requires Distinct(s) && k < |s|
    ensures Distinct(Removed(s, k))
  {
  }

  lemma Neighbours<T>(s: seq<Node<T>>, k: nat)
    requires k < |s|
    ensures NextIn(s, k) == if k + 1 < |s| then s[k + 1] else null
    ensures PrevIn(s, k) == if k > 0 then s[k - 1] else null
  {
  }

  lemma RemovedEnds<T>(s: seq<Node<T>>, k: nat)
    requires k < |s| && Distinct(s)
    ensures |Removed(s, k)| == |s| - 1
    ensures |s| > 1 ==> Removed(s, k)[0] == (if k == 0 then s[1] else s[0])
    ensures |s| > 1 ==> Removed(s, k)[|s| - 2] == (if k == |s| - 1 then s[|s| - 2] else s[|s| - 1])
  {
  }

  lemma RemovedLinks<T>(s: seq<Node<T>>, k: nat, i: nat)
    requires k < |s| && i < |s| - 1
    ensures var j := if i < k then i else i + 1;
      && Removed(s, k)[i] == s[j]
      && NextIn(Removed(s, k), i) == NextIn(s, if j + 1 == k then k else j)
      && PrevIn(Removed(s, k), i) == PrevIn(s, if j == k + 1 then k else j)
  {
  }

  lemma RemovedContents<T>(after: seq<T>, before: seq<T>, k: nat)
    requires k < |before| && |after| == |before| - 1
    requires forall i :: 0 <= i < |after| ==> after[i] == before[if i < k then i else i + 1]
    ensures after == Removed(before, k)
  {
  }

  /** The position d steps further round a ring of n positions. */
  function RingIndex(n: nat, k: nat, d: nat): (r: nat)
    requires k < n && d <= n
    ensures r < n
  {
    if k + d < n then k + d else k + d - n
  }

  /** The least distance from d on, going round from position k, at which p holds; the length when there is none. */
  ghost function RingFirst<T>(s: seq<T>, p: T -> bool, k: nat, d: nat): (r: nat)
    requires k < |s| && d <= |s|
    ensures d <= r <= |s|
    ensures forall e :: d <= e < r ==> !p(s[RingIndex(|s|, k, e)])
    ensures r < |s| ==> p(s[RingIndex(|s|, k, r)])
    decreases |s| - d
  {
    if d == |s| || p(s[RingIndex(|s|, k, d)]) then d else RingFirst(s, p, k, d + 1)
  }

  /** Two steps round the ring are one longer step. */
  lemma RingCompose(n: nat, k: nat, d: nat, e: nat)
    requires k < n && d + e <= n
    ensures RingIndex(n, RingIndex(n, k, d), e) == RingIndex(n, k, d + e)
  {
  }

  /** Every position other than k is reached from k in fewer than n steps, in one way. */
  lemma RingDistance(n: nat, k: nat, j: nat) returns (d: nat)
    requires k < n && j < n && j != k
    ensures 1 <= d < n && RingIndex(n, k, d) == j
    ensures forall e :: 1 <= e < n && RingIndex(n, k, e) == j ==> e == d
  {
    d := if k < j then j - k else n - k + j;
  }

  class List<T(==)> {
    var head: Node?<T>
    var tail: Node?<T>
    var count: nat
    ghost var nodes: seq<Node<T>>

    ghost predicate LinkedAt(i: nat)
      requires i < |nodes|
      reads this, nodes
    {
      && nodes[i].list == this
      && nodes[i].next == NextIn(nodes, i) && nodes[i].prev == PrevIn(nodes, i)
    }

    /** The checks of list_validate, stated about the whole chain. */
    ghost predicate Valid()
      reads this, nodes
    {
      && count == |nodes|
      && head == (if nodes == [] then null else nodes[0])
      && tail == (if nodes == [] then null else nodes[|nodes| - 1])
      && Distinct(nodes)
      && forall i :: 0 <= i < |nodes| ==> LinkedAt(i)
    }

    ghost function Contents(): seq<T>
      reads this, nodes
    {
      seq(|nodes|, i requires 0 <= i < |nodes| reads this, nodes => nodes[i].data)
    }

    constructor ()
      ensures Valid() && nodes == []
    {
      head, tail, count, nodes := null, null, 0, [];
    }

    method Prepend(data: T) returns (n: Node<T>)
      requires Valid()
      modifies this, nodes
      ensures Valid() && fresh(n) && nodes == [n] + old(nodes)
      ensures Contents() == [data] + old(Contents())
    {
      n := new Node(data, null, head, this);
      if head != null {
        head.prev := n;
      } else {
        tail := n;
      }
      head := n;
      count := count + 1;
      nodes := [n] + nodes;
      forall i | 0 <= i < |nodes|
        ensures LinkedAt(i)
      {
        assert i > 0 ==> old(LinkedAt(i - 1));
      }
    }

    method Append(data: T) returns (n: Node<T>)
      requires Valid()
      modifies this, nodes
      ensures Valid() && fresh(n) && nodes == old(nodes) + [n]
      ensures Contents() == old(Contents()) + [data]
    {
      n := new Node(data, tail, null, this);
      if tail != null {
        tail.next := n;
      } else {
        head := n;
      }
      tail := n;
      count := count + 1;
      nodes := nodes + [n];
      forall i | 0 <= i < |nodes|
        ensures LinkedAt(i)
      {
        assert i < |old(nodes)| ==> old(LinkedAt(i));
      }
    }

    /** A new node between two neighbours; head and tail stay. */
    method Splice(before: Node<T>, after: Node<T>, data: T, ghost k: nat) returns (n: Node<T>)
      requires Valid() && 0 < k < |nodes| && nodes[k - 1] == before && nodes[k] == after
      modifies this, nodes
      ensures Valid() && fresh(n) && n.data == data && nodes == Inserted(old(nodes), k, n)
      ensures forall m :: m in old(nodes) ==> m.data == old(m.data)
    {
      assert LinkedAt(k) && LinkedAt(k - 1);
      n := new Node(data, before, after, this);
      before.next := n;
      after.prev := n;
      count := count + 1;
      InsertedDistinct(nodes, k, n);
      nodes := Inserted(nodes, k, n);
      forall i | 0 <= i < |nodes|
        ensures LinkedAt(i)
      {
        assert i != k ==> old(LinkedAt(if i < k then i else i - 1));
      }
    }

    method InsertBefore(node: Node<T>, data: T, ghost k: nat) returns (n: Node<T>)
      requires Valid() && k < |nodes| && nodes[k] == node
      modifies this, nodes
      ensures Valid() && fresh(n) && nodes == Inserted(old(nodes), k, n)
      ensures Contents() == Inserted(old(Contents()), k, data)
    {
      assert LinkedAt(k);
      if node.prev == null {
        n := Prepend(data);
      } else {
        n := Splice(node.prev, node, data, k);
      }
    }

    method InsertAfter(node: Node<T>, data: T, ghost k: nat) returns (n: Node<T>)
      requires Valid() && k < |nodes| && nodes[k] == node
      modifies this, nodes
      ensures Valid() && fresh(n) && nodes == Inserted(old(nodes), k + 1, n)
      ensures Contents() == Inserted(old(Contents()), k + 1, data)
    {
      assert LinkedAt(k);
      if node.next == null {
        n := Append(data);
      } else {
        n := Splice(node, node.next, data, k + 1);
      }
    }

    /** The neighbours of a node are tied to each other. */
    method Unlink(node: Node<T>, ghost k: nat)
      requires Valid() && k < |nodes| && nodes[k] == node
      modifies nodes
      ensures forall j :: 0 <= j < |nodes| ==> nodes[j].data == old(nodes[j].data) && nodes[j].list == this
      ensures forall j :: 0 <= j < |nodes| ==> nodes[j].next == NextIn(nodes, if j + 1 == k then k else j)
      ensures forall j :: 0 <= j < |nodes| ==> nodes[j].prev == PrevIn(nodes, if j == k + 1 then k else j)
    {
      hide NextIn, PrevIn;
      assert LinkedAt(k);
      Neighbours(nodes, k);
      if node.prev != null {
        node.prev.next := node.next;
      }
      if node.next != null {
        node.next.prev := node.prev;
      }
      forall j | 0 <= j < |nodes|
        ensures nodes[j].data == old(nodes[j].data) && nodes[j].list == this
        ensures nodes[j].next == NextIn(nodes, if j + 1 == k then k else j)
        ensures nodes[j].prev == PrevIn(nodes, if j == k + 1 then k else j)
      {
        assert old(LinkedAt(j));
      }
    }

    method RemoveNode(node: Node<T>, ghost k: nat)
      requires Valid() && k < |nodes| && nodes[k] == node
      modifies this, nodes
      ensures Valid() && nodes == Removed(old(nodes), k)
      ensures Contents() == Removed(old(Contents()), k)
    {
      hide NextIn, PrevIn, Removed;
      ghost var before := nodes;
      Unlink(node, k);
      Neighbours(before, k);
      RemovedEnds(before, k);
      count := count - 1;
      if node == head {
        head := node.next;
      }
      if node == tail {
        tail := node.prev;
      }
      RemovedDistinct(before, k);
      nodes := Removed(before, k);
      forall i | 0 <= i < |nodes|
        ensures LinkedAt(i) && nodes[i].data == old(nodes[if i < k then i else i + 1].data)
      {
        RemovedLinks(before, k, i);
      }
      RemovedContents(Contents(), old(Contents()), k);
    }

    method FindFirst(data: T) returns (n: Node?<T>, ghost k: nat)
      requires Valid() && nodes != []
      ensures n == null ==> data !in Contents()
      ensures n != null ==> k < |nodes| && nodes[k] == n && n.data == data && data !in Contents()[..k]
    {
      n, k := head, 0;
      while n != null
        invariant k <= |nodes| && n == (if k < |nodes| then nodes[k] else null)
        invariant forall i :: 0 <= i < k ==> nodes[i].data != data
        decreases |nodes| - k
      {
        assert LinkedAt(k);
        if n.data == data {
          return;
        }
        n, k := n.next, k + 1;
      }
    }

    method FindLast(data: T) returns (n: Node?<T>, ghost k: nat)
      requires Valid() && nodes != []
      ensures n == null ==> data !in Contents()
      ensures n != null ==> k < |nodes| && nodes[k] == n && n.data == data && data !in Contents()[k + 1..]
    {
      n := tail;
      ghost var after := |nodes|;
      k := |nodes| - 1;
      while n != null
        invariant 0 <= after <= |nodes| && n == (if after > 0 then nodes[after - 1] else null)
        invariant after > 0 ==> k == after - 1
        invariant forall i :: after <= i < |nodes| ==> nodes[i].data != data
        decreases after
      {
        assert LinkedAt(k);
        if n.data == data {
          return;
        }
        n, after := n.prev, after - 1;
        k := if after > 0 then after - 1 else 0;
      }
    }

    method RemoveFirst(data: T) returns (found: bool)
      requires Valid() && nodes != []
      modifies this, nodes
      ensures Valid() && found == (data in old(Contents()))
      ensures Contents() == WithoutFirst(old(Contents()), data)
    {
      var n, k := FindFirst(data);
      if n != null {
        WithoutFirstAt(Contents(), data, k);
        RemoveNode(n, k);
        found := true;
      } else {
        WithoutFirstAbsent(Contents(), data);
        found := false;
      }
    }

    method RemoveLast(data: T) returns (found: bool)
      requires Valid() && nodes != []
      modifies this, nodes
      ensures Valid() && found == (data in old(Contents()))
      ensures Contents() == WithoutLast(old(Contents()), data)
    {
      var n, k := FindLast(data);
      if n != null {
        WithoutLastAt(Contents(), data, k);
        RemoveNode(n, k);
        found := true;
      } else {
        WithoutLastAbsent(Contents(), data);
        found := false;
      }
    }

    /** The nearest node after the given one, going round the list once, that satisfies p. */
    method FindNext(node: Node<T>, p: T -> bool, ghost k: nat) returns (r: Node?<T>)
      requires Valid() && k < |nodes| && nodes[k] == node
      ensures var d := RingFirst(Contents(), p, k, 1);
        r == if d == |nodes| then null else nodes[RingIndex(|nodes|, k, d)]
    {
      assert LinkedAt(k);
      ghost var d := 1;
      r := node.next;
      while r != null
        invariant 1 <= d <= |nodes| - k && r == (if k + d < |nodes| then nodes[k + d] else null)
        invariant RingFirst(Contents(), p, k, 1) == RingFirst(Contents(), p, k, d)
        decreases |nodes| - d
      {
        assert LinkedAt(k + d);
        if p(r.data) {
          return;
        }
        r, d := r.next, d + 1;
      }
      r := node.list.head;
      while r != node
        invariant |nodes| - k <= d <= |nodes| && r == nodes[RingIndex(|nodes|, k, d)]
        invariant RingFirst(Contents(), p, k, 1) == RingFirst(Contents(), p, k, d)
        decreases |nodes| - d
      {
        assert LinkedAt(k + d - |nodes|);
        if p(r.data) {
          return;
        }
        r, d := r.next, d + 1;
      }
      r := null;
    }

    /** One step of the copying loop: a new last node after prev. */
    method Attach(prev: Node?<T>, data: T) returns (n: Node<T>)
      requires Valid() && prev == tail
      modifies this, nodes
      ensures Valid() && fresh(n) && nodes == old(nodes) + [n]
      ensures Contents() == old(Contents()) + [data]
    {
      n := new Node(data, prev, null, this);
      if prev != null {
        prev.next := n;
      }
      count := count + 1;
      tail := n;
      if head == null {
        head := n;
      }
      nodes := nodes + [n];
      forall i | 0 <= i < |nodes|
        ensures LinkedAt(i)
      {
        assert i < |old(nodes)| ==> old(LinkedAt(i));
      }
    }

    /** A copy with nodes of its own; the original is not touched. */
    method Copy(f: T -> T) returns (copy: List<T>)
      requires Valid()
      ensures fresh(copy) && copy.Valid() && fresh(copy.nodes)
      ensures |copy.Contents()| == |Contents()|
      ensures forall i :: 0 <= i < |nodes| ==> copy.Contents()[i] == f(Contents()[i])
    {
      copy := new List();
      var prev: Node?<T> := null;
      var it := head;
      ghost var k := 0;
      while it != null
        invariant k <= |nodes| && it == (if k < |nodes| then nodes[k] else null)
        invariant fresh(copy) && copy.Valid() && fresh(copy.nodes)
        invariant |copy.nodes| == k && prev == copy.tail
        invariant forall i :: 0 <= i < k ==> copy.Contents()[i] == f(Contents()[i])
        decreases |nodes| - k
      {
        assert LinkedAt(k);
        prev := copy.Attach(prev, f(it.data));
        it, k := it.next, k + 1;
      }
    }
  }

  ghost function WithoutFirst<T>(s: seq<T>, x: T): seq<T> {
    if s == [] then [] else if s[0] == x then s[1..] else [s[0]] + WithoutFirst(s[1..], x)
  }

  ghost function WithoutLast<T>(s: seq<T>, x: T): seq<T> {
    if s == [] then []
    else if s[|s| - 1] == x then s[..|s| - 1]
    else WithoutLast(s[..|s| - 1], x) + [s[|s| - 1]]
  }

  lemma {:induction false} WithoutFirstAt<T>(s: seq<T>, x: T, k: nat)
    requires k < |s| && s[k] == x && x !in s[..k]
    ensures WithoutFirst(s, x) == Removed(s, k)
  {
    if k > 0 {
      assert s[..k][0] == s[0];
      assert s[1..][..k - 1] == s[..k][1..];
      WithoutFirstAt(s[1..], x, k - 1);
    }
  }

  lemma {:induction false} WithoutFirstAbsent<T>(s: seq<T>, x: T)
    requires x !in s
    ensures WithoutFirst(s, x) == s
  {
    if s != [] {
      WithoutFirstAbsent(s[1..], x);
    }
  }

  lemma {:induction false} WithoutLastAt<T>(s: seq<T>, x: T, k: nat)
    requires k < |s| && s[k] == x && x !in s[k + 1..]
    ensures WithoutLast(s, x) == Removed(s, k)
  {
    var m := |s| - 1;
    if k < m {
      assert s[k + 1..][m - k - 1] == s[m];
      assert s[..m][k + 1..] == s[k + 1..][..m - k - 1];
      WithoutLastAt(s[..m], x, k);
    }
    RemovedBeforeLast(s, k);
    hide Removed;
  }

  lemma RemovedBeforeLast<T>(s: seq<T>, k: nat)
    requires k < |s|
    ensures var m := |s| - 1; Removed(s, k) == if k < m then Removed(s[..m], k) + [s[m]] else s[..m]
  {
  }

  lemma {:induction false} WithoutLastAbsent<T>(s: seq<T>, x: T)
    requires x !in s
    ensures WithoutLast(s, x) == s
  {
    if s != [] {
      assert s[|s| - 1] in s;
      WithoutLastAbsent(s[..|s| - 1], x);
    }
  }
}
