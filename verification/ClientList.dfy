/** linked_lists.c and the priority requests of main.c: the ring as heap nodes linked through next
    and prev. Every operation is shown to do to the links what ClientRing says of the value. */
module ClientList {
  import opened Options
  import opened ClientRing

  /** A list node together with its own lcd_t. */
  class Node {
    var prev: Node?
    var next: Node?
    var lastPriority: Node?
    var usrForeground: int
    var neverSelect: int
    var stateChanged: int

    constructor ()
      ensures lastPriority == null && usrForeground == 0 && neverSelect == 0 && stateChanged == 0
    {
      prev, next, lastPriority := null, null, null;
      usrForeground, neverSelect, stateChanged := 0, 0, 0;
    }

    /** This node's fields are what the value s records of it. */
    ghost predicate Mirrors(s: State<Node>)
      reads `lastPriority, `usrForeground, `neverSelect
    {
      && this in s.last
      && s.last[this] == Remembered(this)
      && (usrForeground == 1 <==> this in s.fg)
      && (neverSelect == 1 <==> this in s.never)
    }
  }

  ghost function Remembered(m: Node): Option<Node>
    reads m`lastPriority
  {
    if m.lastPriority == null then None else Some(m.lastPriority)
  }

  /** Every node of the list mirrors s. */
  ghost predicate AllMirror(nodes: seq<Node>, s: State<Node>)
    reads nodes`lastPriority, nodes`usrForeground, nodes`neverSelect
  {
    forall n {:trigger n.Mirrors(s)} :: n in nodes ==> n.Mirrors(s)
  }

  lemma AddedMirrors(s: State<Node>, node: Node)
    requires AllMirror(s.nodes, s) && node !in s.nodes
    requires node.lastPriority == null && node.usrForeground == 0 && node.neverSelect == 0
    requires node !in s.fg && node !in s.never
    ensures AllMirror(Added(s, node).nodes, Added(s, node))
  {
    forall n | n in Added(s, node).nodes ensures n.Mirrors(Added(s, node)) {
      assert n == node || n.Mirrors(s);
    }
  }

  lemma ShownMirrors(s: State<Node>, n: Node)
    requires n in s.nodes && n.usrForeground == 1 && n.lastPriority == n
    requires forall m :: m in s.nodes ==> m in s.last && (m.neverSelect == 1 <==> m in s.never)
    requires forall m :: m in s.nodes && m != n ==> m.usrForeground == 0 && s.last[m] == Remembered(m)
    ensures AllMirror(Shown(s, n).nodes, Shown(s, n))
  {
  }

  lemma RemovedMirrors(s: State<Node>, k: nat)
    requires 0 < k < |s.nodes| && AllMirror(s.nodes, s) && Distinct(s.nodes)
    ensures AllMirror(Removed(s, k).nodes, Removed(s, k))
  {
    hide Distinct;
    RemovedShape(s, k);
    forall m | m in Removed(s, k).nodes ensures m.Mirrors(Removed(s, k)) {
      assert m.Mirrors(s);
    }
  }

  class Masterlist {
    var head: Node
    var tail: Node
    var current: Node
    var numclients: nat
    ghost var value: State<Node>

    /** Next-links lead from the tail up to the head and back; prev-links lead down, and the tail
        is its own predecessor. */
    ghost predicate Linked(nodes: seq<Node>)
      reads `head, `tail, `numclients, nodes`next, nodes`prev
    {
      && |nodes| >= 1
      && tail == nodes[0] && head == nodes[|nodes| - 1] && numclients == |nodes| - 1
      && (forall i {:trigger nodes[i].next} :: 0 <= i < |nodes| - 1 ==> nodes[i].next == nodes[i + 1])
      && nodes[|nodes| - 1].next == nodes[0]
      && nodes[0].prev == nodes[0]
      && (forall i {:trigger nodes[i].prev} :: 0 < i < |nodes| ==> nodes[i].prev == nodes[i - 1])
    }

    ghost predicate Valid()
      reads this, value.nodes
    {
      Linked(value.nodes) && Ring(value) && current == value.current && AllMirror(value.nodes, value)
    }

    constructor ()
      ensures Valid() && fresh(value.nodes) && numclients == 0 && value == Alone(tail)
    {
      var n := new Node();
      head, tail, current, numclients, value := n, n, n, 0, Alone(n);
      new;
      AloneIsRing(n);
      n.prev, n.next := n, n;
    }

    method Add() returns (node: Node)
      requires Valid()
      modifies this, head
      ensures Valid() && fresh(node) && value == Added(old(value), node)
    {
      hide Ring, Added, AllMirror, Linked;
      node := new Node();
      Ends();
      OnlyMembers(value, node);
      AddedKeepsRing(value, node);
      Apart(value, |value.nodes| - 1);
      ghost var before := value;
      Link(node);
      current := node;
      value := Added(before, node);
      AddedShape(before, node);
      assert AllMirror(before.nodes, before);
      AddedMirrors(before, node);
    }

    /** The new node goes behind the head and becomes the head. */
    method Link(node: Node)
      requires Linked(value.nodes) && node !in value.nodes
      requires forall i :: 0 <= i < |value.nodes| && i != |value.nodes| - 1 ==>
                     value.nodes[i] != value.nodes[|value.nodes| - 1]
      modifies `head, `numclients, node`prev, node`next, head`next
      ensures Linked(value.nodes + [node])
    {
      ghost var nodes := value.nodes;
      node.prev := head;
      node.next := tail;
      head.next := node;
      head := node;
      numclients := numclients + 1;
      ghost var all := nodes + [node];
      forall i {:trigger all[i].next} | 0 <= i < |all| - 1 ensures all[i].next == all[i + 1] {
        if i < |nodes| - 1 {
          assert old(nodes[i].next) == nodes[i + 1];
        }
      }
      forall i {:trigger all[i].prev} | 0 < i < |all| ensures all[i].prev == all[i - 1] {
        if i < |nodes| {
          assert old(nodes[i].prev) == nodes[i - 1];
        }
      }
    }

    /** One place back, from the tail to the head. */
    method MoveBack(ghost k: nat)
      requires Linked(value.nodes) && Distinct(value.nodes) && k < |value.nodes| && current == value.nodes[k]
      modifies this`current
      ensures current == value.nodes[Behind(|value.nodes|, k, 1)]
    {
      if tail == current {
        current := head;
      } else {
        current := current.prev;
      }
    }

    /** The do-while loop of the cycle key: once round the ring, clearing every foreground mark. */
    method HideAll(ghost k: nat)
      requires Linked(value.nodes) && Distinct(value.nodes) && k < |value.nodes| && current == value.nodes[k]
      modifies this`current, value.nodes`usrForeground
      ensures current == old(current)
      ensures forall j {:trigger value.nodes[j]} :: 0 <= j < |value.nodes| ==> value.nodes[j].usrForeground == 0
    {
      hide Behind, Linked, Distinct;
      ghost var n := |value.nodes|;
      DistinctFrom(value.nodes, k);
      BehindStep(n, k, 0);
      var currentScreen := current;
      current.usrForeground := 0;
      MoveBack(k);
      ghost var w := 1;
      while currentScreen != current
        invariant 1 <= w <= n && current == value.nodes[Behind(n, k, w)]
        invariant forall e :: 0 < e < w ==> value.nodes[Behind(n, k, e)].usrForeground == 0
        invariant value.nodes[k].usrForeground == 0
        decreases n - w
      {
        BehindStep(n, k, if w < n then w else 0);
        current.usrForeground := 0;
        MoveBack(Behind(n, k, w));
        w := w + 1;
      }
      if w < n {
        BehindStep(n, k, w);
      }
      forall j {:trigger value.nodes[j]} | 0 <= j < n ensures value.nodes[j].usrForeground == 0 {
        var e := BehindEverywhere(n, k, j);
        BehindStep(n, k, 0);
      }
    }

    lemma Ends()
      requires Linked(value.nodes)
      ensures |value.nodes| >= 1 && numclients == |value.nodes| - 1
      ensures tail == value.nodes[0] && head == value.nodes[numclients]
    {
    }

    /** One pass of the skip loop: round the ring clearing every mark, one place back, and the test
        whether to go on. */
    method SkipPass(ghost k: nat) returns (skip: bool)
      requires Linked(value.nodes) && Distinct(value.nodes) && k < |value.nodes| && current == value.nodes[k]
      requires forall n {:trigger n.neverSelect} :: n in value.nodes ==> (n.neverSelect == 1 <==> n in value.never)
      modifies `current, value.nodes`usrForeground
      ensures current == value.nodes[Behind(|value.nodes|, k, 1)]
      ensures skip <==> !Selectable(value, Behind(|value.nodes|, k, 1))
      ensures forall j {:trigger value.nodes[j]} :: 0 <= j < |value.nodes| ==> value.nodes[j].usrForeground == 0
    {
      hide Behind, Linked, Distinct, Selectable;
      Ends();
      HideAll(k);
      MoveBack(k);
      assert current in value.nodes;
      DistinctFrom(value.nodes, 0);
      StopsAt(value, Behind(|value.nodes|, k, 1));
      skip := current.neverSelect == 1 || (numclients > 0 && current == tail);
    }

    /** The skip loop: goes round and one further back until it may stop. */
    method FindSelectable(ghost k: nat) returns (ghost d: nat)
      requires Linked(value.nodes) && Distinct(value.nodes) && SomeSelectable(value)
      requires k < |value.nodes| && current == value.nodes[k]
      requires forall n {:trigger n.neverSelect} :: n in value.nodes ==> (n.neverSelect == 1 <==> n in value.never)
      modifies `current, value.nodes`usrForeground
      ensures FirstBehind(value, k, d) && current == value.nodes[Behind(|value.nodes|, k, d)]
      ensures forall j {:trigger value.nodes[j]} :: 0 <= j < |value.nodes| ==> value.nodes[j].usrForeground == 0
    {
      hide Behind, Linked, Distinct, Selectable;
      ghost var n := |value.nodes|;
      Ends();
      SomewhereBehind(value, k);
      BehindStep(n, k, 0);
      d := 0;
      var skip := true;
      while skip
        invariant 0 <= d <= n && current == value.nodes[Behind(n, k, d)]
        invariant forall e :: 0 < e < d ==> !Selectable(value, Behind(n, k, e))
        invariant skip ==> d < n && (d > 0 ==> !Selectable(value, Behind(n, k, d)))
        invariant !skip ==> d > 0 && Selectable(value, Behind(n, k, d))
        invariant !skip ==> forall j {:trigger value.nodes[j]} :: 0 <= j < n ==> value.nodes[j].usrForeground == 0
        decreases skip, n - d
      {
        BehindStep(n, k, d);
        skip := SkipPass(Behind(n, k, d));
        d := d + 1;
      }
    }

    /** With nowhere to stop the loop never ends: however many passes it has made, it goes on. */
    method SkipInVain(ghost k: nat, passes: nat) returns (skip: bool, ghost k': nat)
      requires Linked(value.nodes) && Distinct(value.nodes) && !SomeSelectable(value)
      requires k < |value.nodes| && current == value.nodes[k]
      requires forall n {:trigger n.neverSelect} :: n in value.nodes ==> (n.neverSelect == 1 <==> n in value.never)
      modifies `current, value.nodes`usrForeground
      ensures skip && k' < |value.nodes| && current == value.nodes[k']
    {
      hide Behind, Linked, Distinct, Selectable;
      skip, k' := true, k;
      for i := 0 to passes
        invariant skip && k' < |value.nodes| && current == value.nodes[k']
      {
        skip := SkipPass(k');
        k' := Behind(|value.nodes|, k', 1);
      }
    }

    /** The cycle key: requires what the loop needs to end, a screen it may stop at. */
    method Cycle()
      requires Valid() && SomeSelectable(value)
      modifies `current, `value, value.nodes`usrForeground, value.nodes`lastPriority
      ensures Valid() && Cycled(old(value), value)
    {
      hide Behind, Linked, Ring, Cycled, FirstBehind, Shown;
      ghost var s := value;
      RingFacts(s);
      ghost var k := IndexOf(s.nodes, current);
      assert forall n :: n in s.nodes ==> n.Mirrors(s);
      ghost var d := FindSelectable(k);
      assert forall m :: m in s.nodes ==> m.usrForeground == 0 && old(m.Mirrors(value));
      CycledTo(s, k, d);
      CycledKeepsRing(s, Shown(s, current));
      Show();
    }

    /** The screen that has been found becomes the user's choice. */
    method Show()
      requires Linked(value.nodes) && current in value.nodes && Ring(Shown(value, current))
      requires forall m :: m in value.nodes ==> m in value.last && (m.neverSelect == 1 <==> m in value.never)
      requires forall m :: m in value.nodes ==> m.usrForeground == 0 && value.last[m] == Remembered(m)
      modifies `value, current`usrForeground, current`lastPriority
      ensures Valid() && value == Shown(old(value), current)
    {
      hide Linked, Ring, Shown;
      ghost var s := value;
      current.lastPriority := current;
      current.usrForeground := 1;
      value := Shown(s, current);
      ShownShape(s, current);
      ShownMirrors(s, current);
    }

    /** Joins the neighbours of a client that leaves; the head gives way to its predecessor. */
    method Unlink(oldnode: Node, ghost k: nat)
      requires Linked(value.nodes) && Distinct(value.nodes)
      requires 0 < k < |value.nodes| && oldnode == value.nodes[k]
      modifies `head, `numclients, value.nodes`next, value.nodes`prev
      ensures Linked(WithoutIndex(value.nodes, k))
      ensures oldnode.next == old(oldnode.next) && oldnode.prev == old(oldnode.prev)
    {
      hide Distinct;
      ghost var nodes := value.nodes;
      DistinctFrom(nodes, k);
      DistinctFrom(nodes, k - 1);
      assert k + 1 < |nodes| ==> nodes[k].next == nodes[k + 1];
      var prev, next := oldnode.prev, oldnode.next;
      assert prev == nodes[k - 1];
      numclients := numclients - 1;
      if head != oldnode {
        DistinctFrom(nodes, k + 1);
        next.prev := prev;
        prev.next := next;
      } else {
        prev.next := tail;
        head := prev;
      }
    }

    /** Takes a client out; the daemon's own screen stays whatever is asked. */
    method Remove(oldnode: Node)
      requires Valid() && oldnode in value.nodes
      modifies `head, `current, `numclients, `value, value.nodes`next, value.nodes`prev, value.nodes`stateChanged
      ensures Valid()
      ensures var s := old(value);
              value == if oldnode == s.nodes[0] then s else Removed(s, IndexOf(s.nodes, oldnode))
      ensures current == old(current) || (oldnode == old(current) && oldnode != tail)
      ensures forall n :: n in old(value).nodes ==>
                n.stateChanged == if n == current && current != old(current) then 1 else old(n.stateChanged)
    {
      hide Ring, Removed, Distinct, Linked, AllMirror;
      RingFacts(value);
      Ends();
      if oldnode == tail {
        return;
      }
      ghost var s, k := value, IndexOf(value.nodes, oldnode);
      Neighbours(k);
      DistinctFrom(s.nodes, k);
      LeaveCurrent(oldnode, k);
      Unlink(oldnode, k);
      value := Removed(s, k);
      RemovedKeepsRing(s, k);
      RemovedShape(s, k);
      RemovedMirrors(s, k);
    }

    /** A client in front gives way to the next one up, or below when it is the head. */
    method LeaveCurrent(oldnode: Node, ghost k: nat)
      requires Linked(value.nodes) && 0 < k < |value.nodes| && oldnode == value.nodes[k]
      requires forall j {:trigger value.nodes[j]} :: 0 <= j < |value.nodes| && j != k ==> value.nodes[j] != oldnode
      modifies `current, value.nodes`stateChanged
      ensures current == if old(current) != oldnode then old(current)
                         else if k < |value.nodes| - 1 then value.nodes[k + 1] else value.nodes[k - 1]
      ensures forall n :: n in value.nodes ==>
                n.stateChanged == if n == current && current != old(current) then 1 else old(n.stateChanged)
    {
      hide Linked;
      Ends();
      Neighbours(k);
      if current == oldnode {
        if current != head {
          current := oldnode.next;
        } else {
          current := oldnode.prev;
        }
        current.stateChanged := 1;
      }
    }

    lemma Neighbours(k: nat)
      requires Linked(value.nodes) && 0 < k < |value.nodes|
      ensures value.nodes[k].prev == value.nodes[k - 1]
      ensures k < |value.nodes| - 1 ==> value.nodes[k].next == value.nodes[k + 1]
    {
    }

    /** A client's request for priority. It needs the screen it may return to still in the list. */
    method RequestPriority(node: Node)
      requires Valid() && node in value.nodes && node in value.last
      requires LivePriority(value, IndexOf(value.nodes, node))
      modifies `current, `value, node`lastPriority
      ensures Valid() && value == Requested(old(value), IndexOf(old(value).nodes, node))
    {
      hide Ring, Linked, Distinct, LivePriority;
      ghost var s, k := value, IndexOf(value.nodes, node);
      RingFacts(s);
      Predecessor(k);
      RequestKeepsRingExactly(s, k);
      assert node.Mirrors(s);
      if current != node {
        node.lastPriority := current;
        current := node;
      } else {
        if current == node.lastPriority {
          current := current.prev;
        } else {
          if node.lastPriority != null {
            current := node.lastPriority;
            node.lastPriority := null;
          } else {
            current := current.prev;
          }
        }
      }
      value := Requested(s, k);
      forall n | n in value.nodes ensures n.Mirrors(value) {
        assert old(n.Mirrors(value));
      }
    }

    lemma Predecessor(k: nat)
      requires Linked(value.nodes) && k < |value.nodes|
      ensures value.nodes[k].prev == PrevOf(value.nodes, k)
    {
    }

    /** CLIENT_CMD_NEVER_SELECT. */
    method NeverSelect(node: Node)
      requires Valid() && node in value.nodes
      modifies `value, node`neverSelect
      ensures Valid() && value == old(value).(never := old(value).never + {node})
    {
      assert node.Mirrors(value);
      node.neverSelect := 1;
      value := value.(never := value.never + {node});
      forall n | n in value.nodes ensures n.Mirrors(value) {
        assert old(n.Mirrors(value));
      }
    }

    /** Removes the head until only the daemon's own screen is left: numclients removals. */
    method Destroy()
      requires Valid()
      modifies this, value.nodes
      ensures Valid() && value.nodes == [old(tail)] && numclients == 0
    {
      hide Ring, Linked, Distinct, Removed, AllMirror;
      Ends();
      ghost var first, all := tail, value.nodes;
      while head != tail
        invariant Valid() && tail == first
        invariant forall i {:trigger value.nodes[i]} :: 0 <= i < |value.nodes| ==> value.nodes[i] in all
        decreases numclients
      {
        Ends();
        RingFacts(value);
        ghost var s := value;
        ghost var k := IndexOf(s.nodes, head);
        assert k > 0;
        Remove(head);
        RemovedShape(s, k);
        Ends();
      }
      Ends();
      RingFacts(value);
      DistinctFrom(value.nodes, 0);
    }
  }

  /** The test after moving back is the one that makes a node selectable. */
  lemma StopsAt(s: State<Node>, j: nat)
    requires j < |s.nodes|
    requires forall i {:trigger s.nodes[i]} :: 0 <= i < |s.nodes| && i != 0 ==> s.nodes[i] != s.nodes[0]
    ensures !(s.nodes[j] in s.never || (|s.nodes| > 1 && s.nodes[j] == s.nodes[0])) <==> Selectable(s, j)
  {
  }
}
