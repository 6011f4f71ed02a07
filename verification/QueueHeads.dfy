/** The doubly linked list of EHCI queue heads in kernel/device/usb/usb_ehci_ll.c, with its
    cached middle node. Only the spine is modelled: `horizontal` is `Horizontalpointer`,
    `back` is `p_back`. */
module QueueHeads {
  class QueueHead {
    var horizontal: QueueHead?
    var back: QueueHead?

    /** A page of zeroes from `kmem_4k_allocate`. */
    constructor ()
      ensures horizontal == null && back == null
    {
      horizontal, back := null, null;
    }
  }

  /** `s` with `x` added at index `q` (counted from 1): at the front for 1, after the node
      at `q` otherwise; an index outside the list changes nothing. */
  function Add<T>(s: seq<T>, q: nat, x: T): seq<T> {
    if q == 0 || q > |s| then s
    else if q == 1 then [x] + s
    else s[..q] + [x] + s[q..]
  }

  /** `s` without its node number `q`. */
  function Unlink<T>(s: seq<T>, q: nat): seq<T> {
    if q == 0 || q > |s| then s else s[..q - 1] + s[q..]
  }

  /** `s` after the nodes `xs` were added at index `q`, one call each. */
  function AddAll<T>(s: seq<T>, q: nat, xs: seq<T>): seq<T> {
    if xs == [] then s else Add(AddAll(s, q, xs[..|xs| - 1]), q, xs[|xs| - 1])
  }

  lemma AddOneMore<T>(s: seq<T>, q: nat, xs: seq<T>, x: T)
    ensures AddAll(s, q, xs + [x]) == Add(AddAll(s, q, xs), q, x)
    ensures var r := AddAll(s, q, xs);
      && (1 <= q <= |r| ==> |Add(r, q, x)| == |r| + 1)
      && forall i :: 0 <= i < |Add(r, q, x)| ==> Add(r, q, x)[i] == x || Add(r, q, x)[i] in r
  {
    assert (xs + [x])[..|xs|] == xs;
  }

  /** `s` after `n` calls that take out node `q`. */
  function UnlinkAll<T>(s: seq<T>, q: nat, n: nat): seq<T> {
    if n == 0 then s else UnlinkAll(Unlink(s, q), q, n - 1)
  }

  /** Where `remove_qhs` finds what `add_qhs(q, n)` put in. */
  function AddedAt(q: nat): nat {
    if q == 1 then 1 else q + 1
  }

  ghost predicate Within<T>(s: seq<T>, all: seq<T>) {
    forall i :: 0 <= i < |s| ==> s[i] in all
  }

  lemma UnlinkKeeps<T>(s: seq<T>, q: nat, all: seq<T>)
    requires Within(s, all)
    ensures Within(Unlink(s, q), all)
    ensures 1 <= q <= |s| ==> |Unlink(s, q)| == |s| - 1
    ensures |Unlink(s, q)| >= |s| - 1
  {}

  /** A node is added in front of all, or behind the one with that number; an index outside of the
      list changes nothing. */
  lemma AddIs<T>(a: seq<T>, b: seq<T>, x: T)
    ensures a + b != [] ==> Add(a + b, 1, x) == [x] + (a + b)
    ensures |a| >= 2 ==> Add(a + b, |a|, x) == a + [x] + b
    ensures Add(a, 0, x) == a && forall q: nat :: q > |a| ==> Add(a, q, x) == a
  {
    if |a| >= 2 { assert (a + b)[..|a|] == a && (a + b)[|a|..] == b; }
  }

  /** The node with that number is taken out and no other, whatever the number; an index outside
      of the list changes nothing. */
  lemma UnlinkIs<T>(a: seq<T>, x: T, b: seq<T>)
    ensures Unlink(a + [x] + b, |a| + 1) == a + b
    ensures Unlink(a, 0) == a && forall q: nat :: q > |a| ==> Unlink(a, q) == a
  {
    var s := a + [x] + b;
    assert s[..|a|] == a && s[|a| + 1..] == b;
  }

  /** As many calls take out as many nodes that follow each other; past the end of the list
      they do nothing. */
  lemma {:induction false} UnlinkAllIs<T>(a: seq<T>, xs: seq<T>, b: seq<T>, n: nat)
    requires n == |xs| || (n > |xs| && b == [])
    ensures UnlinkAll(a + xs + b, |a| + 1, n) == a + b
    decreases n
  {
    hide Unlink;
    if n > 0 {
      if xs == [] {
        assert a + xs + b == a == a + b;
        UnlinkOutside(a, |a| + 1, n);
      } else {
        assert a + xs + b == a + [xs[0]] + (xs[1..] + b);
        UnlinkIs(a, xs[0], xs[1..] + b);
        assert a + (xs[1..] + b) == a + xs[1..] + b;
        UnlinkAllIs(a, xs[1..], b, n - 1);
      }
    } else {
      assert a + xs + b == a + b;
    }
  }

  /** Node `q` is gone, and the others are in the order they had; without such a node nothing has changed. */
  ghost predicate IsWithout(was: seq<QueueHead>, now: seq<QueueHead>, q: nat) {
    if 1 <= q <= |was| then
      && was[q - 1] !in now && |now| == |was| - 1
      && forall i :: 0 <= i < |now| ==> now[i] == was[if i < q - 1 then i else i + 1]
    else now == was
  }

  lemma UnlinkLeavesOut(was: seq<QueueHead>, q: nat)
    requires forall i, j :: 0 <= i < j < |was| ==> was[i] != was[j]
    ensures IsWithout(was, Unlink<QueueHead>(was, q), q)
  {}

  lemma UnlinkUndoesAdd<T>(s: seq<T>, q: nat, x: T)
    requires q >= 1
    ensures Unlink(Add(s, q, x), AddedAt(q)) == s
  {}

  /** Adding any nodes at `q` and then removing as many where they went in gives the list
      back, for every list and every index the code accepts or rejects. */
  lemma {:induction false} RemoveUndoesAdd<T>(s: seq<T>, q: nat, xs: seq<T>)
    requires q >= 1
    ensures UnlinkAll(AddAll(s, q, xs), AddedAt(q), |xs|) == s
  {
    if xs != [] {
      var before, x := AddAll(s, q, xs[..|xs| - 1]), xs[|xs| - 1];
      UnlinkUndoesAdd(before, q, x);
      RemoveUndoesAdd(s, q, xs[..|xs| - 1]);
    }
  }

  function Reverse<T>(xs: seq<T>): (r: seq<T>)
    ensures |r| == |xs|
  {
    if xs == [] then [] else [xs[|xs| - 1]] + Reverse(xs[..|xs| - 1])
  }

  /** The nodes added at `q` end up together, last one first, right after node `q` (or in
      front of all, for 1), and every other node keeps its place. */
  lemma {:induction false} AddAllPlaces<T>(s: seq<T>, q: nat, xs: seq<T>)
    requires 1 <= q <= |s|
    ensures var k := if q == 1 then 0 else q; AddAll(s, q, xs) == s[..k] + Reverse(xs) + s[k..]
  {
    if xs != [] {
      var k := if q == 1 then 0 else q;
      var before, r := AddAll(s, q, xs[..|xs| - 1]), Reverse(xs[..|xs| - 1]);
      AddAllPlaces(s, q, xs[..|xs| - 1]);
      assert before[..k] == s[..k] && before[k..] == r + s[k..];
    }
  }

  lemma {:induction false} UnlinkOutside<T>(s: seq<T>, q: nat, n: nat)
    requires q > |s|
    ensures UnlinkAll(s, q, n) == s
  {
    if n > 0 { UnlinkOutside(s, q, n - 1); }
  }

  datatype ListOp = AddOp(q: nat) | UnlinkOp(q: nat)

  /** A list of `n` nodes numbered from 0 after a run; what operation `t` adds is numbered `n + t`. */
  function RunIds(n: nat, ops: seq<ListOp>): seq<nat> {
    if ops == [] then seq(n, i => i) else
      var s, t := RunIds(n, ops[..|ops| - 1]), |ops| - 1;
      match ops[t]
      case AddOp(q) => Add<nat>(s, q, n + t)
      case UnlinkOp(q) => Unlink<nat>(s, q)
  }

  ghost predicate NeverEmpties(n: nat, ops: seq<ListOp>) {
    forall t :: 0 <= t < |ops| && ops[t] == UnlinkOp(1) ==> |RunIds(n, ops[..t])| > 1
  }

  function IdsAfter(n: nat, ops: seq<ListOp>, t: nat): seq<nat>
    requires t <= |ops|
  {
    RunIds(n, ops[..t])
  }

  lemma RunIdsEnds(n: nat, ops: seq<ListOp>)
    ensures IdsAfter(n, ops, 0) == seq(n, i => i) && IdsAfter(n, ops, |ops|) == RunIds(n, ops)
  {
    assert ops[..|ops|] == ops;
  }

  lemma RunIdsStep(n: nat, ops: seq<ListOp>, t: nat)
    requires NeverEmpties(n, ops) && t < |ops|
    ensures var ids, next := IdsAfter(n, ops, t), IdsAfter(n, ops, t + 1);
      && (ops[t] == UnlinkOp(1) ==> |ids| > 1)
      && (ops[t].AddOp? ==> next == Add<nat>(ids, ops[t].q, n + t))
      && (ops[t].UnlinkOp? ==> next == Unlink<nat>(ids, ops[t].q))
  {
    assert ops[..t + 1][..t] == ops[..t];
  }

  /** A node and a number that stand at the same place. */
  ghost predicate IsPair(s: seq<QueueHead>, ids: seq<nat>, x: QueueHead, id: nat)
    requires |s| == |ids|
  {
    exists j :: 0 <= j < |s| && x == s[j] && id == ids[j]
  }

  /** Adding at the same index in two sequences puts the same places side by side. */
  lemma AddAlike(s: seq<QueueHead>, ids: seq<nat>, q: nat, x: QueueHead, id: nat)
    requires |s| == |ids|
    ensures |Add<QueueHead>(s, q, x)| == |Add<nat>(ids, q, id)|
    ensures forall i :: 0 <= i < |Add<QueueHead>(s, q, x)| ==>
      var y, k := Add<QueueHead>(s, q, x)[i], Add<nat>(ids, q, id)[i];
      (y == x && k == id) || IsPair(s, ids, y, k)
  {
    forall i | 0 <= i < |Add<QueueHead>(s, q, x)|
      ensures var y, k := Add<QueueHead>(s, q, x)[i], Add<nat>(ids, q, id)[i];
        (y == x && k == id) || IsPair(s, ids, y, k)
    {
      var k := if q == 0 || q > |s| then |s| else if q == 1 then 0 else q;
      if i != k {
        var j := if i < k then i else i - 1;
        assert Add<QueueHead>(s, q, x)[i] == s[j] && Add<nat>(ids, q, id)[i] == ids[j];
      }
    }
  }

  lemma AddOutside(ids: seq<nat>, q: nat, id: nat)
    ensures q == 0 || q > |ids| ==> Add<nat>(ids, q, id) == ids
  {}

  lemma UnlinkAt<T>(s: seq<T>, q: nat)
    ensures |Unlink(s, q)| == if 1 <= q <= |s| then |s| - 1 else |s|
    ensures forall i :: 0 <= i < |Unlink(s, q)| ==> Unlink(s, q)[i] == s[if 1 <= q <= i + 1 && q <= |s| then i + 1 else i]
  {}

  lemma UnlinkAlike(s: seq<QueueHead>, ids: seq<nat>, q: nat)
    requires |s| == |ids|
    ensures |Unlink<QueueHead>(s, q)| == |Unlink<nat>(ids, q)|
    ensures forall i :: 0 <= i < |Unlink<QueueHead>(s, q)| ==> IsPair(s, ids, Unlink<QueueHead>(s, q)[i], Unlink<nat>(ids, q)[i])
  {
    hide Unlink;
    UnlinkAt(s, q);
    UnlinkAt(ids, q);
  }

  class QueueHeadList {
    var qh1: QueueHead?
    var firstNode: QueueHead?
    var middleNode: QueueHead?
    var count: nat          // current_queue_head_pointers
    var index: nat          // current_qh_index
    ghost var nodes: seq<QueueHead>

    /** The nodes are distinct and linked both ways in order. */
    ghost predicate Linked()
      reads this, nodes
    {
      && |nodes| == count >= 1
      && firstNode == nodes[0]
      && (forall i, j :: 0 <= i < j < |nodes| ==> nodes[i] != nodes[j])
      && (forall i {:trigger nodes[i].horizontal} :: 0 <= i < |nodes| ==>
            nodes[i].horizontal == if i + 1 < |nodes| then nodes[i + 1] else null)
      && (forall i {:trigger nodes[i].back} :: 0 <= i < |nodes| ==>
            nodes[i].back == if i > 0 then nodes[i - 1] else null)
    }

    ghost predicate Valid()
      reads this, nodes
    {
      && Linked()
      && (count > 20 ==> index == count / 2 && middleNode == nodes[index - 1] && qh1 == middleNode)
      && (count <= 20 ==> index == 1 && qh1 == firstNode)
    }

    /** The node `k` steps from the first one. */
    ghost function Walk(k: nat): (q: QueueHead)
      requires Linked() && k < count
      reads this, nodes
      ensures q == nodes[k]
    {
      if k == 0 then firstNode else Walk(k - 1).horizontal
    }

    /** Walks to node `q` from the middle node, or from the first when the list is short. */
    method Seek(q: nat)
      requires Valid() && 1 < q <= count
      modifies this`qh1
      ensures qh1 == nodes[q - 1] == Walk(q - 1)
    {
      if count > 20 {
        qh1 := middleNode;
        if q >= index {
          var i := index;
          while i <= q
            invariant index <= i <= q + 1
            invariant qh1 == nodes[(if i <= q then i else q) - 1]
          {
            if i != q { qh1 := qh1.horizontal; }
            i := i + 1;
          }
        } else {
          var i := index;
          while i >= q
            invariant q - 1 <= i <= index
            invariant qh1 == nodes[(if i >= q then i else q) - 1]
          {
            if i != q { qh1 := qh1.back; }
            i := i - 1;
          }
        }
      } else {
        qh1 := firstNode;
        var i := 1;
        while i <= q
          invariant 1 <= i <= q + 1
          invariant qh1 == nodes[(if i <= q then i else q) - 1]
        {
          if i != q { qh1 := qh1.horizontal; }
          i := i + 1;
        }
      }
    }

    /** With `qh1` at node `q`, moves it to where the next call expects it, and caches the
        middle node when the list is long. */
    method Settle(q: nat)
      requires Linked() && 1 <= q <= count && qh1 == nodes[q - 1]
      modifies this`qh1, this`middleNode, this`index
      ensures Valid()
    {
      if count > 20 {
        index := count / 2;
        var i := q;
        if q >= index {
          while i >= index
            invariant index == count / 2 && index - 1 <= i <= q
            invariant qh1 == nodes[(if i >= index then i else index) - 1]
          {
            if i != index { qh1 := qh1.back; }
            i := i - 1;
          }
        } else {
          while i <= index
            invariant index == count / 2 && q <= i <= index + 1
            invariant qh1 == nodes[(if i <= index then i else index) - 1]
          {
            if i != index { qh1 := qh1.horizontal; }
            i := i + 1;
          }
        }
        middleNode := qh1;
      } else {
        qh1 := firstNode;
        index := 1;
      }
    }

    /** The nodes made so far: all linked, but for what follows the last one. */
    ghost predicate Building()
      reads this`qh1, this`firstNode, this`nodes, nodes
    {
      && nodes != [] && firstNode == nodes[0] && qh1 == nodes[|nodes| - 1]
      && (forall j, k :: 0 <= j < k < |nodes| ==> nodes[j] != nodes[k])
      && (forall j {:trigger nodes[j].horizontal} :: 0 <= j < |nodes| - 1 ==> nodes[j].horizontal == nodes[j + 1])
      && (forall j {:trigger nodes[j].back} :: 0 <= j < |nodes| ==> nodes[j].back == if j > 0 then nodes[j - 1] else null)
    }

    /** One more node at the end. */
    method Append()
      requires Building()
      modifies this`qh1, this`nodes, qh1
      ensures Building() && |nodes| == |old(nodes)| + 1 && old(nodes) <= nodes && fresh(nodes[|nodes| - 1])
    {
      var temp := qh1;
      qh1.horizontal := new QueueHead();
      qh1 := qh1.horizontal;
      qh1.back := temp;
      nodes := nodes + [qh1];
    }

    /** init_qhs. */
    constructor (amount: nat)
      requires amount >= 1
      ensures Valid() && count == amount && fresh(nodes)
    {
      var q := new QueueHead();
      qh1, firstNode, middleNode := q, q, null;
      nodes := [q];
      count, index := amount, 1;
      new;
      qh1.horizontal := qh1;
      var i := 1;
      while i <= amount
        invariant 1 <= i <= amount + 1 && |nodes| == if i <= amount then i else amount
        invariant fresh(nodes) && Building() && count == amount
        invariant i > amount ==> qh1.horizontal == null
        invariant amount > 20 && i > amount / 2 ==> middleNode == nodes[amount / 2 - 1]
      {
        if i == amount { qh1.horizontal := null; }
        if amount > 20 && i == amount / 2 {
          middleNode := qh1;
        }
        if i != amount { Append(); }
        i := i + 1;
      }
      Rewind();
    }

    /** Where init_qhs leaves the list: at the node in the middle, or at the first one. */
    method Rewind()
      requires Linked() && (count > 20 ==> middleNode == nodes[count / 2 - 1])
      modifies this`qh1, this`index
      ensures Valid()
    {
      if count > 20 {
        index := count / 2;
        qh1 := middleNode;
      } else {
        qh1 := firstNode;
        index := 1;
      }
    }

    /** The three ways add_qh links in a new node: before all, after all, in between. */
    method LinkFirst() returns (ghost x: QueueHead)
      requires Linked()
      modifies this`qh1, this`firstNode, this`count, this`nodes, nodes
      ensures Linked() && fresh(x) && nodes == [x] + old(nodes) && qh1 == x
    {
      var temp := firstNode;
      firstNode := new QueueHead();
      firstNode.horizontal := temp;
      firstNode.back := null;
      temp.back := firstNode;
      qh1 := firstNode;
      x := firstNode;
      nodes := [x] + nodes;
      count := count + 1;
    }

    method LinkLast() returns (ghost x: QueueHead)
      requires Linked() && qh1 == nodes[count - 1]
      modifies this`qh1, this`count, this`nodes, nodes
      ensures Linked() && fresh(x) && nodes == old(nodes) + [x] && qh1 == old(qh1)
    {
      var temp := qh1;
      qh1.horizontal := new QueueHead();
      qh1 := qh1.horizontal;
      qh1.horizontal := null;
      qh1.back := temp;
      x := qh1;
      qh1 := qh1.back;
      nodes := nodes + [x];
      count := count + 1;
    }

    method LinkBetween(ghost q: nat) returns (ghost x: QueueHead)
      requires Linked() && 1 <= q < count && qh1 == nodes[q - 1]
      modifies this`qh1, this`count, this`nodes, nodes
      ensures Linked() && fresh(x) && nodes == old(nodes)[..q] + [x] + old(nodes)[q..] && qh1 == old(qh1)
    {
      var temp := qh1.horizontal;
      qh1.horizontal := new QueueHead();
      var temp2 := qh1;
      qh1 := qh1.horizontal;
      temp.back := qh1;
      qh1.horizontal := temp;
      qh1.back := temp2;
      x := qh1;
      qh1 := qh1.back;
      nodes := nodes[..q] + [x] + nodes[q..];
      count := count + 1;
    }

    /** free_mem_uint on a node's page, which fills it with zeroes. */
    static method Release(q: QueueHead)
      modifies q
      ensures q.horizontal == null && q.back == null
    {
      q.horizontal, q.back := null, null;
    }

    /** The three ways unlink_qh takes a node out. */
    method UnlinkFirst()
      requires Linked() && count > 1
      modifies this`qh1, this`firstNode, this`count, this`nodes, nodes
      ensures Linked() && nodes == old(nodes)[1..] && qh1 == firstNode
    {
      var temp := firstNode;
      firstNode := firstNode.horizontal;
      firstNode.back := null;
      Release(temp);
      qh1 := firstNode;
      nodes := nodes[1..];
      count := count - 1;
    }

    method UnlinkLast()
      requires Linked() && count > 1 && qh1 == nodes[count - 1]
      modifies this`qh1, this`count, this`nodes, nodes
      ensures Linked() && nodes == old(nodes)[..|old(nodes)| - 1] && qh1 == nodes[|nodes| - 1]
    {
      var temp := qh1;
      qh1 := qh1.back;
      qh1.horizontal := null;
      Release(temp);
      nodes := nodes[..|nodes| - 1];
      count := count - 1;
    }

    method UnlinkBetween(ghost q: nat)
      requires Linked() && 1 < q < count && qh1 == nodes[q - 1]
      modifies this`qh1, this`count, this`nodes, nodes
      ensures Linked() && nodes == old(nodes)[..q - 1] + old(nodes)[q..] && qh1 == nodes[q - 1]
    {
      var temp, temp2 := qh1, qh1;
      temp := temp.horizontal;
      qh1 := qh1.back;
      temp.back := qh1;
      qh1.horizontal := temp;
      Release(temp2);
      qh1 := qh1.horizontal;
      nodes := nodes[..q - 1] + nodes[q..];
      count := count - 1;
    }

    /** add_qh, called with the current counters. */
    method AddQh(q: nat) returns (ghost x: QueueHead?)
      requires Valid()
      modifies this, nodes
      ensures Valid()
      ensures if 1 <= q <= old(count) then x != null && fresh(x) && nodes == Add<QueueHead>(old(nodes), q, x)
        else x == null && nodes == old(nodes)
      ensures q == 1 ==> nodes == [x] + old(nodes)
      ensures 2 <= q <= old(count) ==> nodes == old(nodes)[..q] + [x] + old(nodes)[q..]
      ensures forall i :: 0 <= i < |nodes| ==> nodes[i] in old(nodes) || nodes[i] == x
    {
      x := null;
      if q <= count && q >= 1 {
        if q == 1 {
          x := LinkFirst();
        } else {
          Seek(q);
          if q == count { x := LinkLast(); } else { x := LinkBetween(q); }
        }
        Settle(q);
      }
    }

    /** unlink_qh, called with the current counters, on a list it does not empty. */
    method UnlinkQh(q: nat)
      requires Valid() && (q == 1 ==> count > 1)
      modifies this, nodes
      ensures Valid() && nodes == Unlink<QueueHead>(old(nodes), q)
      ensures IsWithout(old(nodes), nodes, q)
    {
      hide IsWithout;
      UnlinkLeavesOut(nodes, q);
      if q <= count && q >= 1 {
        var at := q;
        if q == 1 {
          UnlinkFirst();
        } else {
          Seek(q);
          if q == count {
            UnlinkLast();
            at := q - 1;
          } else {
            UnlinkBetween(q);
          }
        }
        Settle(at);
      }
    }

    /** add_qhs. */
    method AddQhs(q: nat, amount: int) returns (ghost xs: seq<QueueHead>)
      requires Valid()
      modifies this, nodes
      ensures Valid() && nodes == AddAll(old(nodes), q, xs)
      ensures |xs| == if amount > 0 && 1 <= q <= old(count) then amount else 0
      ensures fresh(xs) && forall i :: 0 <= i < |nodes| ==> nodes[i] in old(nodes) || fresh(nodes[i])
    {
      hide Add;
      xs := [];
      if amount <= 0 { return; }
      var b := 1;
      while b <= amount
        invariant 1 <= b <= amount + 1
        invariant Valid() && fresh(xs) && nodes == AddAll(old(nodes), q, xs)
        invariant |xs| == if 1 <= q <= old(count) then b - 1 else 0
        invariant count == old(count) + |xs|
        invariant forall i :: 0 <= i < |nodes| ==> nodes[i] in old(nodes) || fresh(nodes[i])
      {
        ghost var x := AddQh(q);
        if x != null {
          AddOneMore<QueueHead>(old(nodes), q, xs, x);
          xs := xs + [x];
        }
        b := b + 1;
      }
    }

    /** remove_qhs: refuses to remove nothing, or as many nodes as the list has. */
    method RemoveQhs(q: nat, amount: nat)
      requires Valid()
      modifies this, nodes
      ensures Valid()
      ensures nodes == if amount >= old(count) then old(nodes) else UnlinkAll(old(nodes), q, amount)
      ensures Within(nodes, old(nodes))
    {
      hide IsWithout, Unlink;
      if amount >= count || amount <= 0 { return; }
      var b := 1;
      while b <= amount
        invariant 1 <= b <= amount + 1
        invariant Valid() && UnlinkAll(nodes, q, amount + 1 - b) == UnlinkAll(old(nodes), q, amount)
        invariant count > amount + 1 - b
        invariant Within(nodes, old(nodes))
      {
        UnlinkKeeps(nodes, q, old(nodes));
        UnlinkQh(q);
        b := b + 1;
      }
    }

    method AddThenRemove(q: nat, amount: nat)
      requires Valid() && q >= 1
      modifies this, nodes
      ensures Valid() && nodes == old(nodes)
    {
      ghost var xs := AddQhs(q, amount);
      RemoveUndoesAdd(old(nodes), q, xs);
      if q > old(count) {
        UnlinkOutside(old(nodes), AddedAt(q), amount);
      } else {
        AddAllPlaces(old(nodes), q, xs);
      }
      RemoveQhs(AddedAt(q), amount);
    }

    /** The nodes of the list are those of `was` that `ids` numbers below `|was|`, in that
        order; the others are new. */
    ghost predicate Keeps(was: seq<QueueHead>, ids: seq<nat>, news: set<QueueHead>)
      reads this`nodes
    {
      && |ids| == |nodes|
      && forall i :: 0 <= i < |nodes| ==> if ids[i] < |was| then nodes[i] == was[ids[i]] else nodes[i] in news
    }

    /** add_qh with the numbers of the nodes kept up to date. */
    method AddNumbered(q: nat, ghost was: seq<QueueHead>, ghost ids: seq<nat>, ghost news: set<QueueHead>, ghost id: nat)
      returns (ghost news': set<QueueHead>)
      requires Valid() && Keeps(was, ids, news) && id >= |was|
      modifies this, nodes
      ensures Valid() && count == |nodes| && Keeps(was, Add<nat>(ids, q, id), news')
      ensures news <= news' && fresh(news' - news)
    {
      assert count == |nodes|;
      hide Add, Linked;
      ghost var before := nodes;
      ghost var x := AddQh(q);
      news' := news;
      if x != null {
        news' := news + {x};
        AddAlike(before, ids, q, x, id);
      }
      AddOutside(ids, q, id);
    }

    method UnlinkNumbered(q: nat, ghost was: seq<QueueHead>, ghost ids: seq<nat>, ghost news: set<QueueHead>)
      requires Valid() && Keeps(was, ids, news) && (q == 1 ==> count > 1)
      modifies this, nodes
      ensures Valid() && count == |nodes| && Keeps(was, Unlink<nat>(ids, q), news)
    {
      assert count == |nodes|;
      hide Unlink, Linked;
      UnlinkAlike(nodes, ids, q);
      UnlinkQh(q);
    }

    method Perform(op: ListOp, ghost was: seq<QueueHead>, ghost ids: seq<nat>, ghost news: set<QueueHead>, ghost id: nat)
      returns (ghost ids': seq<nat>, ghost news': set<QueueHead>)
      requires Valid() && Keeps(was, ids, news) && id >= |was| && (op == UnlinkOp(1) ==> count > 1)
      modifies this, nodes
      ensures Valid() && count == |nodes| && Keeps(was, ids', news') && news <= news' && fresh(news' - news)
      ensures ids' == match op case AddOp(q) => Add<nat>(ids, q, id) case UnlinkOp(q) => Unlink<nat>(ids, q)
    {
      hide Add, Unlink, Valid, Linked, Keeps;
      match op
      case AddOp(q) =>
        news' := AddNumbered(q, was, ids, news, id);
        ids' := Add<nat>(ids, q, id);
      case UnlinkOp(q) =>
        UnlinkNumbered(q, was, ids, news);
        ids', news' := Unlink<nat>(ids, q), news;
    }

    /** Any run of add_qh and unlink_qh that never empties the list does to its nodes what
        it does to a plain sequence. */
    method RunOps(ops: seq<ListOp>) returns (ghost ids: seq<nat>)
      requires Valid() && NeverEmpties(count, ops)
      modifies this, nodes
      ensures Valid() && ids == RunIds(old(count), ops) && count == |ids|
      ensures forall i :: 0 <= i < count ==> if ids[i] < old(count) then nodes[i] == old(nodes)[ids[i]] else fresh(nodes[i])
    {
      hide Add, Unlink, Valid, Linked, IdsAfter, RunIds, NeverEmpties, Keeps;
      ghost var was, n, news: set<QueueHead> := nodes, count, {};
      RunIdsEnds(n, ops);
      ids := IdsAfter(n, ops, 0);
      KeepsAll(ids);
      for t := 0 to |ops|
        invariant Valid() && count == |nodes| && ids == IdsAfter(n, ops, t) && Keeps(was, ids, news) && fresh(news)
      {
        RunIdsStep(n, ops, t);
        KeptIs(was, ids, news);
        ids, news := Perform(ops[t], was, ids, news, n + t);
      }
      KeptIs(was, ids, news);
    }

    lemma KeepsAll(ids: seq<nat>)
      requires Valid() && ids == seq(count, i => i)
      ensures count == |nodes| && Keeps(nodes, ids, {})
    {}

    lemma KeptIs(was: seq<QueueHead>, ids: seq<nat>, news: set<QueueHead>)
      requires Keeps(was, ids, news)
      ensures |ids| == |nodes| && forall i :: 0 <= i < |nodes| ==> nodes[i] in was || nodes[i] in news
      ensures forall i :: 0 <= i < |nodes| ==> if ids[i] < |was| then nodes[i] == was[ids[i]] else nodes[i] in news
    {}
  }
}
