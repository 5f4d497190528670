/** `aisdi::LinkedList`: a doubly linked chain between two permanent boundary nodes. */
module LinkedLists {
  import opened Outcomes
  import opened Sequences

  /** `std::abs`, which the offset operators apply to their distance. */
  function Abs(d: int): nat
  {
    if d < 0 then -d else d
  }

  /** `LinkedList::Node`: one element and the links to its neighbours. */
  class Node<T(0)> {
    var prev: Node?<T>
    var next: Node?<T>
    var data: T

    /** `Node()`: a boundary node with no neighbours; its data is the type's default value. */
    constructor Sentinel()
      ensures prev == null && next == null
    {
      prev := null;
      next := null;
    }

    /** `Node(d, p, n)`. */
    constructor (d: T, p: Node?<T>, n: Node?<T>)
      ensures data == d && prev == p && next == n
    {
      data := d;
      prev := p;
      next := n;
    }
  }

  /** The list. A position (`ConstIterator` or `Iterator`, one type here) is this list together
      with one of its nodes; the operations on positions are members taking that node. */
  class LinkedList<T(0)> {
    var head: Node<T>
    var tail: Node<T>
    /** `csize`. */
    var size: nat

    /** Every node of the chain in order: `head`, the element nodes, `tail`. */
    ghost var nodes: seq<Node<T>>
    /** The abstract sequence the list holds. */
    ghost var contents: seq<T>
    ghost var Repr: set<object>

    /** Following `next` from `head` reaches `tail` after exactly `csize + 1` steps, `prev`
        mirrors `next`, and the interior nodes hold `contents`. That no node occurs twice
        follows (`NoNodeTwice`). */
    ghost predicate Valid()
      reads this, Repr
      ensures Valid() ==> this in Repr
    {
      && this in Repr
      && |nodes| == size + 2 && |contents| == size
      && nodes[0] == head && nodes[|nodes| - 1] == tail
      && (forall n :: n in nodes ==> n in Repr)
      && head.prev == null && tail.next == null
      && (forall i {:trigger nodes[i].next} :: 0 <= i < |nodes| - 1 ==> nodes[i].next == nodes[i + 1])
      && (forall i {:trigger nodes[i].prev} :: 0 < i < |nodes| ==> nodes[i].prev == nodes[i - 1])
      && (forall i :: 0 <= i < size ==> nodes[i + 1].data == contents[i])
    }

    /** The place of node `p` in the chain: 0 for `head`, `csize + 1` for `tail`. */
    ghost function IndexOf(p: Node<T>): (i: nat)
      reads this
      requires p in nodes
      ensures i < |nodes| && nodes[i] == p
    {
      var i :| 0 <= i < |nodes| && nodes[i] == p; i
    }

    /** No node occurs twice in the chain: two places holding one node would, stepping back
        along `prev`, give `head` a predecessor. */
    lemma {:induction false} NoNodeTwice(a: nat, b: nat)
      requires Valid() && a < b < |nodes|
      ensures nodes[a] != nodes[b]
      decreases a
    {
      if a == 0 {
        assert nodes[b].prev == nodes[b - 1];
      } else {
        assert nodes[a].prev == nodes[a - 1] && nodes[b].prev == nodes[b - 1];
        NoNodeTwice(a - 1, b - 1);
      }
    }

    /** Two different places hold two different nodes. */
    lemma NodesApart(a: nat, b: nat)
      requires Valid() && a < |nodes| && b < |nodes| && a != b
      ensures nodes[a] != nodes[b]
    {
      if a < b {
        NoNodeTwice(a, b);
      } else {
        NoNodeTwice(b, a);
      }
    }

    /** Every node other than the one at place `c` sits at a place other than `c`. */
    lemma OthersApart(c: nat)
      requires Valid() && c < |nodes|
      ensures forall a :: 0 <= a < |nodes| && a != c ==> nodes[a] != nodes[c]
    {
      forall a | 0 <= a < |nodes| && a != c
        ensures nodes[a] != nodes[c]
      {
        NodesApart(a, c);
      }
    }

    /** `head` is only at place 0 and `tail` only at the last place. */
    lemma BoundaryPlaces()
      requires Valid()
      ensures head != tail && IndexOf(head) == 0 && IndexOf(tail) == |nodes| - 1
      ensures forall a :: 0 < a < |nodes| ==> nodes[a] != head
      ensures forall a :: 0 <= a < |nodes| - 1 ==> nodes[a] != tail
    {
      OthersApart(0);
      OthersApart(|nodes| - 1);
      IndexOfIs(head, 0);
      IndexOfIs(tail, |nodes| - 1);
    }

    /** The node at place `i` of the chain has place `i`. */
    lemma IndexOfIs(p: Node<T>, i: nat)
      requires Valid() && i < |nodes| && nodes[i] == p
      ensures p in nodes && IndexOf(p) == i
    {
      var t := IndexOf(p);
      if t != i {
        NodesApart(t, i);
      }
    }

    /** A fresh pair of boundary nodes linked to each other. */
    static method NewSentinels() returns (h: Node<T>, t: Node<T>)
      ensures fresh(h) && fresh(t) && h != t
      ensures h.prev == null && h.next == t && t.prev == h && t.next == null
    {
      h := new Node.Sentinel();
      t := new Node.Sentinel();
      h.next := t;
      t.prev := h;
    }

    /** `LinkedList()`: `head->next == tail`, `csize == 0`. */
    constructor ()
      ensures Valid() && fresh(Repr)
      ensures contents == [] && head.next == tail && IsEmpty()
    {
      var h, t := NewSentinels();
      head, tail, size := h, t, 0;
      nodes, contents := [h, t], [];
      new;
      Repr := {this, h, t};
    }

    /** `LinkedList(std::initializer_list)`: the list's elements appended in order. */
    constructor FromSeq(l: seq<T>)
      ensures Valid() && fresh(Repr)
      ensures contents == l
    {
      var h, t := NewSentinels();
      head, tail, size := h, t, 0;
      nodes, contents := [h, t], [];
      new;
      Repr := {this, h, t};
      for i := 0 to |l|
        invariant Valid() && fresh(Repr)
        invariant contents == l[..i]
      {
        Append(l[i]);
      }
    }

    /** Copy constructor: the same elements in the same order, in fresh nodes. */
    constructor Copy(other: LinkedList<T>)
      requires other.Valid()
      ensures Valid() && fresh(Repr)
      ensures contents == other.contents
    {
      var h, t := NewSentinels();
      head, tail, size := h, t, 0;
      nodes, contents := [h, t], [];
      new;
      Repr := {this, h, t};
      AppendAll(other);
    }

    /** Copy assignment: self-assignment does nothing; otherwise the list is cleared and
        refilled with the other's elements, and the other list is left as it was. */
    method Assign(other: LinkedList<T>)
      requires Valid() && other.Valid()
      requires this != other ==> Repr !! other.Repr
      modifies Repr
      ensures Valid() && fresh(Repr - old(Repr))
      ensures contents == old(other.contents)
      ensures other.Valid() && other.contents == old(other.contents)
      ensures this != other ==> Repr !! other.Repr
      ensures this == other ==> nodes == old(nodes) && Repr == old(Repr)
      ensures this != other ==> head == old(head) && tail == old(tail)
      ensures this != other ==> forall t :: 0 < t < |nodes| - 1 ==> fresh(nodes[t])
    {
      if this == other {
        return;
      }
      Clear();
      AppendAll(other);
      size := other.size;
    }

    /** The range-for loop of copying: appends the other list's elements, read through its
        positions from `begin()` to `end()`. */
    method AppendAll(other: LinkedList<T>)
      requires Valid() && other.Valid() && Repr !! other.Repr
      modifies Repr
      ensures Valid() && fresh(Repr - old(Repr)) && Repr !! other.Repr
      ensures contents == old(contents) + other.contents
      ensures other.Valid() && other.contents == old(other.contents)
      ensures head == old(head) && tail == old(tail)
      ensures nodes[..|old(nodes)| - 1] == old(nodes[..|nodes| - 1])
      ensures forall t :: |old(nodes)| - 1 <= t < |nodes| - 1 ==> fresh(nodes[t])
    {
      ghost var k := 0;
      var it := other.Begin();
      while it != other.End()
        invariant Valid() && fresh(Repr - old(Repr)) && Repr !! other.Repr
        invariant other.Valid() && other.contents == old(other.contents)
        invariant k <= |other.contents| && it == other.nodes[k + 1]
        invariant contents == old(contents) + other.contents[..k]
        invariant head == old(head) && tail == old(tail) && |nodes| == |old(nodes)| + k
        invariant nodes[..|old(nodes)| - 1] == old(nodes[..|nodes| - 1])
        invariant forall t :: |old(nodes)| - 1 <= t < |nodes| - 1 ==> fresh(nodes[t])
        decreases |other.contents| - k
      {
        var x := other.Deref(it);
        Append(x.value);
        var step := other.Next(it);
        it := step.value;
        k := k + 1;
      }
      assert other.contents[..k] == other.contents;
    }

    /** `isEmpty()`: `head->next == tail`. */
    function IsEmpty(): (b: bool)
      reads this, Repr
      requires Valid()
      ensures b <==> contents == []
    {
      assert nodes[0].next == nodes[1];
      BoundaryPlaces();
      head.next == tail
    }

    /** `getSize()`: the running count, which always equals the number of element nodes. */
    function GetSize(): (n: nat)
      reads this, Repr
      requires Valid()
      ensures n == |contents| == |nodes| - 2
    {
      size
    }

    /** `insert(position, item)`: a new node spliced in just before the node `p` addresses.
        Every existing node keeps its place relative to the others. */
    method Insert(p: Node<T>, v: T)
      requires Valid() && p in nodes && p != head
      modifies Repr
      ensures Valid() && fresh(Repr - old(Repr)) && size == old(size) + 1
      ensures var k := old(IndexOf(p));
                && nodes[..k] == old(nodes[..k]) && nodes[k + 1..] == old(nodes[k..])
                && fresh(nodes[k])
                && contents == InsertAt(old(contents), k - 1, v)
    {
      Splice(p, v);
      InsertCheckNeverFires();
      if size != 1 && head.next == tail.prev {
        // the source throws `runtime_error` here; the invariant rules this branch out
        assert false;
      }
    }

    /** The relinking part of `insert`: a new node between `p.prev` and `p`, count up by one. */
    method Splice(p: Node<T>, v: T)
      requires Valid() && p in nodes && p != head
      modifies Repr
      ensures Valid() && fresh(Repr - old(Repr)) && size == old(size) + 1
      ensures var k := old(IndexOf(p));
                && nodes[..k] == old(nodes[..k]) && nodes[k + 1..] == old(nodes[k..])
                && fresh(nodes[k])
                && contents == InsertAt(old(contents), k - 1, v)
    {
      ghost var k := IndexOf(p);
      assert p.prev == nodes[k - 1];
      OthersApart(k - 1);
      OthersApart(k);
      var node := new Node(v, p.prev, p);
      p.prev.next := node;
      p.prev := node;
      size := size + 1;
      nodes := InsertAt(nodes, k, node);
      contents := InsertAt(contents, k - 1, v);
      Repr := Repr + {node};
      forall a | 0 <= a < |nodes| - 1
        ensures nodes[a].next == nodes[a + 1]
      {
        if a < k - 1 {
          assert nodes[a] == old(nodes[a]) && nodes[a + 1] == old(nodes[a + 1]);
        } else if a >= k + 1 {
          assert nodes[a] == old(nodes[a - 1]) && nodes[a + 1] == old(nodes[a]);
        }
      }
      forall a | 0 < a < |nodes|
        ensures nodes[a].prev == nodes[a - 1]
      {
        if a < k {
          assert nodes[a] == old(nodes[a]) && nodes[a - 1] == old(nodes[a - 1]);
        } else if a >= k + 2 {
          assert nodes[a] == old(nodes[a - 1]) && nodes[a - 1] == old(nodes[a - 2]);
        }
      }
      forall a | 0 <= a < size
        ensures nodes[a + 1].data == contents[a]
      {
        if a + 1 < k {
          assert nodes[a + 1] == old(nodes[a + 1]);
        } else if a + 1 > k {
          assert nodes[a + 1] == old(nodes[a]);
        }
      }
    }

    /** `append(item)`: insertion before `end()`. */
    method Append(v: T)
      requires Valid()
      modifies Repr
      ensures Valid() && fresh(Repr - old(Repr)) && size == old(size) + 1
      ensures var k := old(|nodes|) - 1;
                && nodes[..k] == old(nodes[..k]) && nodes[k + 1..] == old(nodes[k..])
                && fresh(nodes[k])
      ensures contents == old(contents) + [v]
    {
      Insert(End(), v);
      InsertAtEnds(old(contents), v);
    }

    /** `prepend(item)`: insertion before `begin()`. */
    method Prepend(v: T)
      requires Valid()
      modifies Repr
      ensures Valid() && fresh(Repr - old(Repr))
      ensures nodes[..1] == old(nodes[..1]) && nodes[2..] == old(nodes[1..]) && fresh(nodes[1])
      ensures contents == [v] + old(contents)
    {
      Insert(Begin(), v);
      InsertAtEnds(old(contents), v);
    }

    /** `popFirst()`: throws on an empty list; otherwise returns and removes the first element. */
    method PopFirst() returns (r: Result<T>)
      requires Valid()
      modifies Repr
      ensures Valid() && Repr == old(Repr)
      ensures r.Err? <==> old(contents) == []
      ensures r.Err? ==> r.error == OutOfRange && unchanged(Repr)
      ensures r.Ok? ==> r.value == old(contents)[0] && contents == old(contents)[1..]
      ensures r.Ok? ==> nodes == old(nodes[..1] + nodes[2..])
    {
      if IsEmpty() {
        return Err(OutOfRange);
      }
      assert head.next == nodes[1];
      var w := head.next.data;
      var erased := Erase(Begin());
      r := Ok(w);
    }

    /** `popLast()`: throws on an empty list; otherwise returns and removes the last element,
        erasing at `--end()`. */
    method PopLast() returns (r: Result<T>)
      requires Valid()
      modifies Repr
      ensures Valid() && Repr == old(Repr)
      ensures r.Err? <==> old(contents) == []
      ensures r.Err? ==> r.error == OutOfRange && unchanged(Repr)
      ensures r.Ok? ==> r.value == old(contents)[|old(contents)| - 1]
      ensures r.Ok? ==> contents == old(contents)[..|old(contents)| - 1]
      ensures r.Ok? ==> nodes == old(nodes[..|nodes| - 2] + nodes[|nodes| - 1..])
    {
      if IsEmpty() {
        return Err(OutOfRange);
      }
      assert tail.prev == nodes[|nodes| - 2];
      IndexOfIs(tail.prev, |nodes| - 2);
      var w := tail.prev.data;
      var last := Prev(End());
      var erased := Erase(last.value);
      r := Ok(w);
    }

    /** `erase(position)`: throws for a boundary node; otherwise unlinks exactly that node. */
    method Erase(p: Node<T>) returns (r: Outcome)
      requires Valid() && p in nodes
      modifies Repr
      ensures Valid() && Repr == old(Repr)
      ensures r.Fail? <==> p == old(head) || p == old(tail)
      ensures r.Fail? ==> r.error == OutOfRange && unchanged(Repr)
      ensures r.Pass? ==> var i := old(IndexOf(p));
                nodes == RemoveRange(old(nodes), i, i + 1)
                && contents == RemoveRange(old(contents), i - 1, i)
    {
      if p == tail || p == head {
        return Fail(OutOfRange);
      }
      Unlink(p);
      r := Pass;
    }

    /** Connects the neighbours of element node `p` to each other and drops it from the count. */
    method Unlink(p: Node<T>)
      requires Valid() && p in nodes && p != head && p != tail
      modifies Repr
      ensures Valid() && Repr == old(Repr)
      ensures var i := old(IndexOf(p));
                nodes == RemoveRange(old(nodes), i, i + 1)
                && contents == RemoveRange(old(contents), i - 1, i)
    {
      ghost var i := IndexOf(p);
      assert p.prev == nodes[i - 1] && p.next == nodes[i + 1];
      OthersApart(i - 1);
      OthersApart(i + 1);
      p.prev.next := p.next;
      p.next.prev := p.prev;
      size := size - 1;
      nodes := RemoveRange(nodes, i, i + 1);
      contents := RemoveRange(contents, i - 1, i);
      forall a | 0 <= a < |nodes| - 1
        ensures nodes[a].next == nodes[a + 1]
      {
        if a < i - 1 {
          assert nodes[a] == old(nodes[a]) && nodes[a + 1] == old(nodes[a + 1]);
        } else if a >= i {
          assert nodes[a] == old(nodes[a + 1]) && nodes[a + 1] == old(nodes[a + 2]);
        }
      }
      forall a | 0 < a < |nodes|
        ensures nodes[a].prev == nodes[a - 1]
      {
        if a < i {
          assert nodes[a] == old(nodes[a]) && nodes[a - 1] == old(nodes[a - 1]);
        } else if a > i {
          assert nodes[a] == old(nodes[a + 1]) && nodes[a - 1] == old(nodes[a]);
        }
      }
      forall a | 0 <= a < size
        ensures nodes[a + 1].data == contents[a]
      {
        if a + 1 < i {
          assert nodes[a + 1] == old(nodes[a + 1]);
        } else {
          assert nodes[a + 1] == old(nodes[a + 2]);
        }
      }
    }

    /** `erase(firstIncluded, lastExcluded)`: `(begin(), end())` clears the list and an empty
        range does nothing; otherwise a walk from `first` must meet `last` before `tail`, or
        it throws before removing anything, and then exactly `[first, last)` is unlinked.
        A walk that starts at `end()` towards another node is undefined behaviour. */
    method EraseRange(first: Node<T>, last: Node<T>) returns (r: Outcome)
      requires Valid() && first in nodes && last in nodes && first != head && last != head
      requires first == tail ==> last == tail
      modifies Repr
      ensures Valid() && Repr == old(Repr)
      ensures var i, j := old(IndexOf(first)), old(IndexOf(last));
                && (r.Pass? <==> i <= j)
                && (r.Fail? ==> r.error == OutOfRange && unchanged(Repr))
                && (r.Pass? ==> nodes == RemoveRange(old(nodes), i, j)
                                && contents == RemoveRange(old(contents), i - 1, j - 1))
    {
      ghost var i, j := IndexOf(first), IndexOf(last);
      if first == Begin() && last == End() {
        assert i == 1 && j == |nodes| - 1;
        ghost var oldNodes := nodes;
        RemoveRangeExtremes(contents, 0);
        Clear();
        assert nodes == RemoveRange(oldNodes, i, j);
        return Pass;
      }
      if first == last {
        assert i == j;
        return Pass;
      }
      var reachable := Reaches(first, last);
      if !reachable {
        return Fail(OutOfRange);
      }
      UnlinkRange(first, last);
      r := Pass;
    }

    /** The walk of `erase(firstIncluded, lastExcluded)` that checks, before anything is
        removed, that `last` comes after `first`: it steps on from `first` until it meets
        `last` (success) or `tail` (failure). */
    method Reaches(first: Node<T>, last: Node<T>) returns (ok: bool)
      requires Valid() && first in nodes && last in nodes
      requires first != last && first != tail
      ensures ok <==> IndexOf(first) < IndexOf(last)
    {
      ghost var i := IndexOf(first);
      BoundaryPlaces();
      var node := first;
      ghost var w := i;
      while node != last
        invariant i <= w < |nodes| - 1 && node == nodes[w]
        invariant forall t :: i <= t <= w ==> nodes[t] != last
        decreases |nodes| - w
      {
        assert node.next == nodes[w + 1];
        node := node.next;
        w := w + 1;
        if node == last {
          IndexOfIs(last, w);
          break;
        }
        if node == tail {
          return false;
        }
      }
      ok := true;
    }

    /** The removal loop of `erase(firstIncluded, lastExcluded)`: unlinks node after node from
        `first` up to, not including, `last`. */
    method UnlinkRange(first: Node<T>, last: Node<T>)
      requires Valid() && first in nodes && last in nodes && first != head
      requires IndexOf(first) <= IndexOf(last)
      modifies Repr
      ensures Valid() && Repr == old(Repr)
      ensures var i, j := old(IndexOf(first)), old(IndexOf(last));
                && nodes == RemoveRange(old(nodes), i, j)
                && contents == RemoveRange(old(contents), i - 1, j - 1)
    {
      ghost var i, j := IndexOf(first), IndexOf(last);
      ghost var oldNodes, oldContents := nodes, contents;
      ghost var m := i;
      var cur := first;
      while cur != last
        invariant Valid() && Repr == old(Repr)
        invariant i <= m <= j && cur == oldNodes[m] && last == oldNodes[j]
        invariant nodes == RemoveRange(oldNodes, i, m)
        invariant contents == RemoveRange(oldContents, i - 1, m - 1)
        decreases j - m
      {
        assert nodes[i] == cur && nodes[i + j - m] == last;
        if m != j {
          NodesApart(i, i + j - m);
        }
        cur, m := UnlinkStep(cur, oldNodes, oldContents, i, m);
      }
      assert nodes[i] == cur && nodes[i + j - m] == last;
      if m != j {
        NodesApart(i, i + j - m);
      }
      assert m == j;
    }

    /** One pass of that removal loop: with `[i, m)` of the original chain already gone, the
        node at `i` (originally at `m`) is unlinked; its successor and `m + 1` are returned. */
    method UnlinkStep(cur: Node<T>, ghost oldNodes: seq<Node<T>>, ghost oldContents: seq<T>,
                      ghost i: nat, ghost m: nat) returns (nxt: Node<T>, ghost m': nat)
      requires Valid() && 0 < i <= m < |oldNodes| - 1
      requires |oldContents| == |oldNodes| - 2 && cur == oldNodes[m]
      requires nodes == RemoveRange(oldNodes, i, m)
      requires contents == RemoveRange(oldContents, i - 1, m - 1)
      modifies Repr
      ensures Valid() && Repr == old(Repr) && m' == m + 1 && nxt == oldNodes[m']
      ensures nodes == RemoveRange(oldNodes, i, m')
      ensures contents == RemoveRange(oldContents, i - 1, m' - 1)
    {
      assert nodes[i] == cur && nodes[i + 1] == oldNodes[m + 1];
      BoundaryPlaces();
      IndexOfIs(cur, i);
      assert cur.next == nodes[i + 1];
      nxt := cur.next;
      ghost var preNodes, preContents := nodes, contents;
      Unlink(cur);
      RemoveRangeStep(oldNodes, preNodes, nodes, i, m);
      RemoveRangeStep(oldContents, preContents, contents, i - 1, m - 1);
      m' := m + 1;
    }

    /** `clear()`: `head` and `tail` linked directly, count 0. */
    method Clear()
      requires Valid()
      modifies this, head, tail
      ensures Valid() && Repr == old(Repr) && head == old(head) && tail == old(tail)
      ensures contents == [] && nodes == [head, tail] && size == 0
      ensures head.next == tail && IsEmpty()
    {
      if IsEmpty() {
        return;
      }
      BoundaryPlaces();
      head.next := tail;
      tail.prev := head;
      size := 0;
      nodes := [head, tail];
      contents := [];
    }

    /** `begin()` / `cbegin()`: `head->next`, the first element or `tail` when empty. */
    function Begin(): (p: Node<T>)
      reads this, Repr
      requires Valid()
      ensures p in nodes && IndexOf(p) == 1
      ensures Deref(p) == if contents == [] then Err(OutOfRange) else Ok(contents[0])
    {
      assert nodes[0].next == nodes[1];
      IndexOfIs(nodes[1], 1);
      BoundaryPlaces();
      head.next
    }

    /** `end()` / `cend()`: `tail`, which cannot be dereferenced and equals `begin()` exactly
        when the list is empty. */
    function End(): (p: Node<T>)
      reads this, Repr
      requires Valid()
      ensures p in nodes && IndexOf(p) == |contents| + 1
      ensures Deref(p) == Err(OutOfRange)
      ensures p == Begin() <==> contents == []
    {
      BoundaryPlaces();
      tail
    }

    /** `operator*`: throws at a boundary node, else yields that node's element. */
    function Deref(p: Node<T>): (r: Result<T>)
      reads this, Repr
      requires Valid() && p in nodes
      ensures var i := IndexOf(p);
                && (r.Ok? <==> 1 <= i <= |contents|)
                && (r.Ok? ==> r.value == contents[i - 1])
                && (r.Err? ==> r.error == OutOfRange)
    {
      BoundaryPlaces();
      if p == tail || p == head then Err(OutOfRange) else Ok(p.data)
    }

    /** `operator++`: throws at `tail`, else moves one node on. */
    function Next(p: Node<T>): (r: Result<Node<T>>)
      reads this, Repr
      requires Valid() && p in nodes
      ensures var i := IndexOf(p);
                && (r.Ok? <==> i < |nodes| - 1)
                && (r.Ok? ==> r.value == nodes[i + 1])
                && (r.Err? ==> r.error == OutOfRange)
    {
      assert p != tail ==> p.next == nodes[IndexOf(p) + 1];
      BoundaryPlaces();
      if p == tail then Err(OutOfRange) else var n: Node<T> := p.next; Ok(n)
    }

    /** `operator--`: throws when it would land on `head`, i.e. from the first element. */
    function Prev(p: Node<T>): (r: Result<Node<T>>)
      reads this, Repr
      requires Valid() && p in nodes && p != head
      ensures var i := IndexOf(p);
                && (r.Ok? <==> i > 1)
                && (r.Ok? ==> r.value == nodes[i - 1])
                && (r.Err? ==> r.error == OutOfRange)
    {
      assert p.prev == nodes[IndexOf(p) - 1];
      BoundaryPlaces();
      if p.prev == head then Err(OutOfRange) else var n: Node<T> := p.prev; Ok(n)
    }

    /** `operator+(d)`: `|d|` single steps forward, each refused at `tail`. */
    method Plus(p: Node<T>, d: int) returns (r: Result<Node<T>>)
      requires Valid() && p in nodes
      ensures var i := IndexOf(p);
                && (r.Ok? <==> i + Abs(d) < |nodes|)
                && (r.Ok? ==> r.value == nodes[i + Abs(d)])
                && (r.Err? ==> r.error == OutOfRange)
    {
      ghost var i := IndexOf(p);
      BoundaryPlaces();
      var node := p;
      var k := 0;
      while k < Abs(d)
        invariant 0 <= k <= Abs(d)
        invariant i + k < |nodes| && node == nodes[i + k]
      {
        if node == tail {
          return Err(OutOfRange);
        }
        node := node.next;
        k := k + 1;
      }
      r := Ok(node);
    }

    /** `operator-(d)`: `|d|` single steps back, each refused when it would land on `head`. */
    method Minus(p: Node<T>, d: int) returns (r: Result<Node<T>>)
      requires Valid() && p in nodes && p != head
      ensures var i := IndexOf(p);
                && (r.Ok? <==> Abs(d) < i)
                && (r.Ok? ==> r.value == nodes[i - Abs(d)])
                && (r.Err? ==> r.error == OutOfRange)
    {
      ghost var i := IndexOf(p);
      BoundaryPlaces();
      var node := p;
      var k := 0;
      while k < Abs(d)
        invariant 0 <= k <= Abs(d)
        invariant k < i && node == nodes[i - k]
      {
        assert node.prev == nodes[i - k - 1];
        if node.prev == head {
          return Err(OutOfRange);
        }
        node := node.prev;
        k := k + 1;
      }
      r := Ok(node);
    }

    /** `operator==` compares nodes, which is comparing places in the chain. */
    function Equals(p: Node<T>, q: Node<T>): (b: bool)
      reads this
      requires p in nodes && q in nodes
      ensures b <==> IndexOf(p) == IndexOf(q)
    {
      p == q
    }

    /** The check after an insert (`csize != 1 && head->next == tail->prev`) cannot hold:
        the first and the last element node coincide exactly when there is one element. */
    lemma InsertCheckNeverFires()
      requires Valid()
      ensures head.next == tail.prev <==> size == 1
    {
      assert head.next == nodes[1] && tail.prev == nodes[size];
      if size != 1 {
        NodesApart(1, size);
      }
    }
  }

  /** `append(v)` then `popLast()` returns `v` and restores the contents. */
  method AppendThenPopLast<T(0)>(l: LinkedList<T>, x: T) returns (r: Result<T>)
    requires l.Valid()
    modifies l.Repr
    ensures l.Valid() && r == Ok(x) && l.contents == old(l.contents)
  {
    l.Append(x);
    r := l.PopLast();
  }

  /** `prepend(v)` then `popFirst()` returns `v` and restores the contents. */
  method PrependThenPopFirst<T(0)>(l: LinkedList<T>, x: T) returns (r: Result<T>)
    requires l.Valid()
    modifies l.Repr
    ensures l.Valid() && r == Ok(x) && l.contents == old(l.contents)
  {
    l.Prepend(x);
    r := l.PopFirst();
  }

  /** `insert(p, v)` then erasing the new element (one step back from `p`) restores the list. */
  method InsertThenErase<T(0)>(l: LinkedList<T>, p: Node<T>, x: T) returns (r: Outcome)
    requires l.Valid() && p in l.nodes && p != l.head
    modifies l.Repr
    ensures l.Valid() && r == Pass && l.contents == old(l.contents)
  {
    ghost var k := l.IndexOf(p);
    l.Insert(p, x);
    l.IndexOfIs(p, k + 1);
    var q := l.Minus(p, 1);
    l.IndexOfIs(q.value, k);
    l.BoundaryPlaces();
    r := l.Erase(q.value);
    RemoveAfterInsert(old(l.contents), k - 1, x);
  }

  /** Mutating a copy leaves the original untouched. */
  method CopyIsIndependent<T(0)>(l: LinkedList<T>, x: T) returns (c: LinkedList<T>)
    requires l.Valid()
    ensures l.Valid() && c.Valid() && fresh(c.Repr)
    ensures l.contents == old(l.contents) && c.contents == l.contents + [x]
  {
    c := new LinkedList.Copy(l);
    c.Append(x);
  }
}
